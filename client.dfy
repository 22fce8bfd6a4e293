/**
 * The client side of a TFTP transfer (RFC 1350): a read transfer fetches a file
 * from the server, a write transfer pushes one to it, each a stop-and-wait loop
 * over one datagram socket. The socket and the local file system are outside
 * the model: what the network delivers is a sequence of receives given to each
 * transfer, the local file is a value, and what the client sends is recorded in
 * the ghost trace `sent`.
 */
module Client {
  import opened Wrappers
  import opened Packets
  import opened Transfer

  /** The local file a transfer reads or writes: the existence and permission checks and its bytes. */
  datatype LocalFile = LocalFile(present: bool, readable: bool, writable: bool, contents: seq<byte>)

  /** A file that is not there (never created, or deleted). */
  const Absent := LocalFile(false, false, false, [])

  /** How a transfer ended. */
  datatype Outcome =
    | Done          // the transfer ran to its end
    | NoPermission  // the local file failed the permission check; nothing was sent
    | SocketFailed  // the datagram socket could not be created; nothing was sent
    | IoFailed      // an IOException was caught
    | Blocked       // a receive is waiting for a datagram that never comes
    | Aborted       // a failed receive led to a NullPointerException

  /** The stream read of a write transfer: FileInputStream.read into the buffer buf at position pos of file. */
  method ReadInto(buf: array<byte>, file: seq<byte>, pos: nat) returns (n: int)
    requires pos <= |file| && buf.Length == MAX_DATA_LENGTH
    modifies buf
    ensures n == StreamRead(file, pos)
    ensures n != -1 ==> buf[..n] == file[pos..pos + n] && buf[n..] == old(buf[n..])
    ensures n == -1 ==> buf[..] == old(buf[..])
  {
    n := StreamRead(file, pos);
    if n != -1 {
      forall i | 0 <= i < n {
        buf[i] := file[pos + i];
      }
    }
  }

  class TFTPClient {
    const serverAddress: Address
    const serverPort: Port
    /** The source port of the last datagram received: where every ACK and DATA goes. */
    var responsePort: Port
    /** Verbose or quiet printing; it matters only for what a null packet does. */
    var verbose: bool
    /** Every datagram the client has sent, in order. */
    ghost var sent: seq<Sent>

    constructor (server: Address, port: Port)
      ensures serverAddress == server && serverPort == port
      ensures responsePort == 0 && !verbose && sent == []
    {
      serverAddress := server;
      serverPort := port;
      responsePort := 0;
      verbose := false;
      sent := [];
    }

    /** The client for the server on this host, at the default port. */
    constructor Local(localhost: Address)
      ensures serverAddress == localhost && serverPort == DEFAULT_PORT
      ensures responsePort == 0 && !verbose && sent == []
    {
      serverAddress := localhost;
      serverPort := DEFAULT_PORT;
      responsePort := 0;
      verbose := false;
      sent := [];
    }

    /** Sends one packet to the server's address at the given port. */
    method Send(p: Packet, port: Port)
      modifies this`sent
      ensures sent == old(sent) + [Sent(p, serverAddress, port)]
    {
      sent := sent + [Sent(p, serverAddress, port)];
    }

    /**
     * Receives a DATA packet. A datagram overwrites the reply port with its
     * source port; a failed receive yields no packet and leaves the port alone.
     */
    method ReceiveDataPacket(d: Inbound<DataIn>) returns (pkt: Option<DataIn>)
      modifies this`responsePort
      ensures responsePort == PortAfter(old(responsePort), [d])
      ensures pkt.Some? <==> d.Received?
      ensures d.Received? ==> pkt.value == d.packet && responsePort == d.sourcePort
    {
      if d.Received? {
        responsePort := d.sourcePort;
        pkt := Some(d.packet);
      } else {
        pkt := None;
      }
    }

    /** Receives an ACK packet, learning the reply port the same way. */
    method ReceiveAckPacket(d: Inbound<AckIn>) returns (pkt: Option<AckIn>)
      modifies this`responsePort
      ensures responsePort == PortAfter(old(responsePort), [d])
      ensures pkt.Some? <==> d.Received?
      ensures d.Received? ==> pkt.value == d.packet && responsePort == d.sourcePort
    {
      if d.Received? {
        responsePort := d.sourcePort;
        pkt := Some(d.packet);
      } else {
        pkt := None;
      }
    }

    /**
     * Read transfer: sends an RRQ to the server port, then receives DATA packets
     * from ins, appending each payload to the local file and acknowledging it
     * with the local counter 1, 2, 3, ... at the learned reply port, until a
     * short packet has been handled. `acked` is the number of DATA packets
     * consumed and acknowledged. `faultAt` is the step that throws an
     * IOException, if any: 0 is sending the RRQ, k >= 1 the local write or the
     * ACK send of round k.
     */
    method ReadFileFromServer(filename: string, local: LocalFile, createOk: bool, socketOk: bool,
                              ins: seq<Inbound<DataIn>>, faultAt: Option<nat>)
      returns (outcome: Outcome, file: LocalFile, acked: nat)
      modifies this`responsePort, this`sent
      ensures acked <= |ins|
      ensures outcome == NoPermission <==> local.present && !local.writable
      ensures outcome == NoPermission ==> file == local
      ensures outcome in {NoPermission, SocketFailed} ==>
                sent == old(sent) && responsePort == old(responsePort) && acked == 0
      ensures outcome == SocketFailed ==> file.present && file.contents == []
      ensures outcome == IoFailed ==> !file.present
      ensures outcome in {Done, Blocked, Aborted} ==>
                file.present && file.contents == Written(ins[..acked])
      ensures outcome in {Done, Blocked, Aborted} ||
              (outcome == IoFailed && (local.present || createOk) && faultAt != Some(0)) ==>
                sent == old(sent) + [Sent(RRQ(filename), serverAddress, serverPort)] +
                        Addressed(serverAddress, old(responsePort), ins, AckPackets(acked))
      ensures outcome == IoFailed ==>
                (sent == old(sent) <==> !(local.present || createOk) || faultAt == Some(0))
      ensures outcome == IoFailed && (!(local.present || createOk) || faultAt == Some(0)) ==>
                acked == 0 && responsePort == old(responsePort)
      ensures outcome == Done <==>
                (!local.present || local.writable) && (local.present || createOk) && socketOk &&
                Completes(ins).Some? && (faultAt.None? || faultAt.value > Completes(ins).value)
      ensures outcome == Done ==>
                Completes(ins) == Some(acked) &&
                ins[acked - 1].Received? && responsePort == ins[acked - 1].sourcePort
      ensures outcome == SocketFailed <==>
                (!local.present || local.writable) && (local.present || createOk) && !socketOk
      ensures outcome == IoFailed <==>
                (!local.present || local.writable) &&
                (!(local.present || createOk) || (socketOk && ReadReachesFault(ins, faultAt)))
      ensures outcome == IoFailed && (local.present || createOk) && faultAt != Some(0) ==>
                faultAt == Some(acked + 1) && acked < |ins| && FullBlocks(ins, acked) &&
                ins[acked].Received? && responsePort == ins[acked].sourcePort
      ensures outcome in {Blocked, Aborted} ==>
                FullBlocks(ins, acked) && (faultAt.None? || faultAt.value > acked) &&
                responsePort == PortAfter(old(responsePort), ins[..acked])
      ensures outcome == Blocked ==> acked == |ins|
      ensures outcome == Aborted ==> acked < |ins| && ins[acked].ReceiveFailed?
    {
      acked := 0;
      if local.present && !local.writable {
        return NoPermission, local, 0;
      }
      if !local.present && !createOk {
        // createNewFile failed: the IOException handler deletes a file that is not there
        return IoFailed, Absent, 0;
      }
      // opening the output stream creates the file or empties it
      file := LocalFile(true, if local.present then local.readable else true, true, []);
      if !socketOk {
        return SocketFailed, file, 0;
      }
      if faultAt == Some(0) {
        return IoFailed, Absent, 0;
      }
      Send(RRQ(filename), serverPort);

      var stop, written;
      stop, written, acked := ReceiveDataBlocks(ins, faultAt);
      if stop == Some(IoFailed) {
        // the local write or the ACK send threw: the handler deletes the file
        return IoFailed, Absent, acked;
      }
      file := file.(contents := written);
      outcome := if stop.Some? then stop.value else Done;
    }

    /**
     * The do-while loop of the read transfer: receives DATA packets from ins,
     * appends each payload to what has been written (returned in written) and
     * acknowledges it with the local block counter 1, 2, 3, ... at the reply port
     * just learned, until a short packet has been handled. stop is None when the
     * loop ran to its end and otherwise says how the transfer ended inside it.
     */
    method ReceiveDataBlocks(ins: seq<Inbound<DataIn>>, faultAt: Option<nat>)
      returns (stop: Option<Outcome>, written: seq<byte>, acked: nat)
      requires faultAt != Some(0)
      modifies this`responsePort, this`sent
      ensures acked <= |ins|
      ensures written == Written(ins[..acked])
      ensures sent == old(sent) + Addressed(serverAddress, old(responsePort), ins, AckPackets(acked))
      ensures stop.None? <==>
                Completes(ins).Some? && (faultAt.None? || faultAt.value > Completes(ins).value)
      ensures stop.None? ==>
                Completes(ins) == Some(acked) &&
                ins[acked - 1].Received? && responsePort == ins[acked - 1].sourcePort
      ensures stop.Some? ==> stop.value in {Blocked, Aborted, IoFailed}
      ensures stop.Some? ==> FullBlocks(ins, acked) && (faultAt.None? || faultAt.value > acked)
      ensures stop == Some(Blocked) ==> acked == |ins|
      ensures stop == Some(Aborted) ==> acked < |ins| && ins[acked].ReceiveFailed?
      ensures stop != Some(IoFailed) ==> responsePort == PortAfter(old(responsePort), ins[..acked])
      ensures stop == Some(IoFailed) ==>
                faultAt == Some(acked + 1) && acked < |ins| &&
                ins[acked].Received? && responsePort == ins[acked].sourcePort
      ensures stop == Some(IoFailed) <==> ReadReachesFault(ins, faultAt)
    {
      ghost var p0 := old(responsePort);
      written, acked := [], 0;
      var blockNumber := 1;
      var last := false;
      while !last
        invariant blockNumber == acked + 1
        invariant ReadLoop(ins, p0, old(sent), acked, written)
        invariant !last ==> FullBlocks(ins, acked)
        invariant last ==> Completes(ins) == Some(acked) && ins[acked - 1].Received? &&
                           IsLastDataPacket(ins[acked - 1].packet.payload)
        invariant faultAt.None? || faultAt.value > acked
        decreases |ins| - acked
      {
        CompletesBeyond(ins, acked);
        if acked == |ins| {
          return Some(Blocked), written, acked;
        }
        var payload;
        stop, payload := ReadRound(ins, faultAt, blockNumber, p0, old(sent), written);
        if stop.Some? {
          return stop, written, acked;
        }
        written := written + payload;
        acked := blockNumber;
        blockNumber := blockNumber + 1;
        last := IsLastDataPacket(payload);
      }
      stop := None;
    }

    /**
     * What the read loop keeps between rounds: after acked DATA packets, written
     * holds their payloads, the reply port was learned from them and the trace
     * holds ACK 1 .. acked, each at the port learned from the packet it answers.
     */
    ghost predicate ReadLoop(ins: seq<Inbound<DataIn>>, p0: Port, base: seq<Sent>, acked: nat, written: seq<byte>)
      reads this
    {
      acked <= |ins| &&
      written == Written(ins[..acked]) &&
      responsePort == PortAfter(p0, ins[..acked]) &&
      sent == base + Addressed(serverAddress, p0, ins, AckPackets(acked))
    }

    /**
     * One round of the read loop, after blockNumber - 1 full DATA packets:
     * receives the next DATA packet, appends its payload to the file and
     * acknowledges it with ACK blockNumber at the reply port just learned. The
     * round stops the transfer when a failed receive is dereferenced or when the
     * local write or the ACK send throws.
     */
    method ReadRound(ins: seq<Inbound<DataIn>>, faultAt: Option<nat>, blockNumber: nat,
                     ghost p0: Port, ghost base: seq<Sent>, ghost written: seq<byte>)
      returns (stop: Option<Outcome>, payload: Payload)
      requires 1 <= blockNumber <= |ins| && FullBlocks(ins, blockNumber - 1)
      requires ReadLoop(ins, p0, base, blockNumber - 1, written)
      modifies this`responsePort, this`sent
      ensures stop.Some? ==> sent == old(sent)
      ensures stop == Some(Aborted) <==> ins[blockNumber - 1].ReceiveFailed?
      ensures stop == Some(Aborted) ==> responsePort == old(responsePort)
      ensures stop == Some(IoFailed) <==> ins[blockNumber - 1].Received? && faultAt == Some(blockNumber)
      ensures stop == Some(IoFailed) ==> responsePort == ins[blockNumber - 1].sourcePort
      ensures stop.Some? ==> stop.value in {Aborted, IoFailed}
      ensures stop.None? ==>
                ins[blockNumber - 1].Received? && payload == ins[blockNumber - 1].packet.payload &&
                ReadLoop(ins, p0, base, blockNumber, written + payload)
      ensures stop.None? && IsLastDataPacket(payload) ==> Completes(ins) == Some(blockNumber)
      ensures stop.None? && !IsLastDataPacket(payload) ==> FullBlocks(ins, blockNumber)
    {
      payload := [];
      var pkt := ReceiveDataPacket(ins[blockNumber - 1]);
      if pkt.None? {
        // the null packet is dereferenced by fs.write: the file is left as it is
        return Some(Aborted), [];
      }
      if faultAt == Some(blockNumber) {
        return Some(IoFailed), [];
      }
      PortAfterSnoc(p0, ins, blockNumber - 1);
      FullBlocksStep(ins, blockNumber - 1);
      assert ins[..blockNumber][..blockNumber - 1] == ins[..blockNumber - 1];
      payload := pkt.value.payload;
      Send(ACK(blockNumber), responsePort);
      AddressedSnoc(serverAddress, p0, ins, AckPackets(blockNumber - 1), ACK(blockNumber));
      stop := None;
    }

    /**
     * Write transfer: sends a WRQ to the server port, then for blocks 1, 2, 3, ...
     * awaits an ACK, reads up to 512 bytes of the local file and sends them as
     * the next DATA packet to the learned reply port, while the payload just sent
     * was full; then awaits one final ACK. `dataSent` is the number of DATA
     * packets sent and `received` the number of receives consumed from acks.
     * `faultAt` is the step that throws an IOException, if any: 0 is sending
     * the WRQ, k >= 1 the local read or the DATA send of round k.
     */
    method WriteFileToServer(filename: string, local: LocalFile, socketOk: bool,
                             acks: seq<Inbound<AckIn>>, faultAt: Option<nat>)
      returns (outcome: Outcome, dataSent: nat, received: nat)
      modifies this`responsePort, this`sent
      ensures received <= |acks| && dataSent <= |Chunks(local.contents)|
      ensures received == dataSent || received == dataSent + 1
      ensures outcome == NoPermission <==> !local.present || !local.readable
      ensures outcome in {NoPermission, SocketFailed} ==>
                sent == old(sent) && responsePort == old(responsePort) && received == 0
      ensures outcome in {Done, Blocked, Aborted} || (outcome == IoFailed && received >= 1) ==>
                sent == old(sent) + [Sent(WRQ(filename), serverAddress, serverPort)] +
                        Addressed(serverAddress, old(responsePort), acks,
                                  DataPackets(Chunks(local.contents)[..dataSent]))
      ensures responsePort == PortAfter(old(responsePort), acks[..received])
      ensures outcome == SocketFailed <==> local.present && local.readable && !socketOk
      ensures outcome == IoFailed ==> faultAt == Some(received)
      ensures outcome == IoFailed && received == 0 ==> sent == old(sent) && dataSent == 0
      ensures outcome == IoFailed && received >= 1 ==> received == dataSent + 1
      ensures outcome == IoFailed <==>
                local.present && local.readable && socketOk &&
                WriteReachesFault(local.contents, acks, faultAt, verbose)
      ensures outcome in {Blocked, Aborted} ==>
                (faultAt.None? || faultAt.value > dataSent) &&
                (verbose ==> AllReceived(acks[..dataSent]))
      ensures outcome == Done <==>
                local.present && local.readable && socketOk &&
                |acks| > |Chunks(local.contents)| &&
                (faultAt.None? || faultAt.value > |Chunks(local.contents)|) &&
                (verbose ==> AllReceived(acks[..|Chunks(local.contents)|]))
      ensures outcome == Done ==>
                dataSent == |Chunks(local.contents)| && received == dataSent + 1 &&
                responsePort == PortAfter(old(responsePort), acks[..received])
      ensures outcome == Blocked ==> received == dataSent == |acks|
      ensures outcome == Aborted ==>
                verbose && received == dataSent + 1 && acks[received - 1].ReceiveFailed?
    {
      dataSent, received := 0, 0;
      if !local.present || !local.readable {
        return NoPermission, 0, 0;
      }
      if !socketOk {
        return SocketFailed, 0, 0;
      }
      if faultAt == Some(0) {
        return IoFailed, 0, 0;
      }
      Send(WRQ(filename), serverPort);
      ghost var p0 := old(responsePort);
      var stop;
      stop, dataSent, received := SendDataBlocks(local.contents, acks, faultAt);
      if stop.Some? {
        return stop.value, dataSent, received;
      }
      if received == |acks| {
        return Blocked, dataSent, received;
      }
      // the final ACK: its packet is never looked at, so a failed receive passes
      var _ := ReceiveAckPacket(acks[received]);
      PortAfterSnoc(p0, acks, received);
      received := received + 1;
      outcome := Done;
    }

    /**
     * What the write loop keeps between rounds: payloads are the DATA payloads
     * sent so far, each after one received ACK; until the short payload has gone
     * (finished) they are followed by the payloads of the rest of the file from
     * pos on. The reply port was learned from those receives, and the trace holds
     * the DATA packets numbered from 1 at the ports learned when each was sent.
     */
    ghost predicate WriteLoop(contents: seq<byte>, acks: seq<Inbound<AckIn>>, p0: Port, base: seq<Sent>,
                              pos: nat, payloads: seq<Payload>, finished: bool)
      reads this
    {
      |payloads| <= |acks| &&
      (if finished then Chunks(contents) == payloads
       else pos <= |contents| && Chunks(contents) == payloads + Chunks(contents[pos..])) &&
      responsePort == PortAfter(p0, acks[..|payloads|]) &&
      sent == base + Addressed(serverAddress, p0, acks, DataPackets(payloads)) &&
      (verbose ==> AllReceived(acks[..|payloads|]))
    }

    /**
     * The do-while loop of the write transfer, from the first ACK awaited to the
     * short DATA packet: stop is None when the loop ran to its end and otherwise
     * says how the transfer ended inside it.
     */
    method SendDataBlocks(contents: seq<byte>, acks: seq<Inbound<AckIn>>, faultAt: Option<nat>)
      returns (stop: Option<Outcome>, dataSent: nat, received: nat)
      requires faultAt != Some(0)
      modifies this`responsePort, this`sent
      ensures dataSent <= received <= |acks| && dataSent <= |Chunks(contents)|
      ensures sent == old(sent) + Addressed(serverAddress, old(responsePort), acks,
                                            DataPackets(Chunks(contents)[..dataSent]))
      ensures responsePort == PortAfter(old(responsePort), acks[..received])
      ensures stop.None? ==>
                |acks| >= |Chunks(contents)| &&
                (faultAt.None? || faultAt.value > |Chunks(contents)|) &&
                (verbose ==> AllReceived(acks[..|Chunks(contents)|]))
      ensures stop.None? ==> dataSent == received == |Chunks(contents)|
      ensures stop.Some? ==> stop.value in {Blocked, Aborted, IoFailed}
      ensures stop == Some(Blocked) ==> received == dataSent == |acks|
      ensures stop == Some(Aborted) ==>
                verbose && received == dataSent + 1 && acks[received - 1].ReceiveFailed?
      ensures stop == Some(IoFailed) ==> faultAt == Some(received) && received == dataSent + 1
      ensures stop.Some? ==>
                dataSent < |Chunks(contents)| && (faultAt.None? || faultAt.value > dataSent) &&
                (verbose ==> AllReceived(acks[..dataSent]))
      ensures stop == Some(IoFailed) && verbose ==> AllReceived(acks[..received])
    {
      dataSent, received := 0, 0;
      ghost var p0 := old(responsePort);
      ghost var base := old(sent);
      ghost var payloads: seq<Payload> := [];
      var data := new byte[MAX_DATA_LENGTH];
      var byteUsed := 0;
      var blockNumber := 0;
      var pos: nat := 0;
      var more := true;
      while more
        invariant received == dataSent == blockNumber == |payloads|
        invariant WriteLoop(contents, acks, p0, base, pos, payloads, !more)
        invariant more ==> data.Length == MAX_DATA_LENGTH && fresh(data)
        invariant faultAt.None? || faultAt.value > received
        decreases |Chunks(contents)| - dataSent, more
      {
        SentPrefix(contents, payloads, pos);
        if received == |acks| {
          return Some(Blocked), dataSent, received;
        }
        blockNumber := blockNumber + 1;
        ghost var payload;
        stop, byteUsed, data, payload := WriteRound(contents, acks, faultAt, pos, data, blockNumber, p0, base, payloads);
        received := received + 1;
        if stop.Some? {
          return stop, dataSent, received;
        }
        pos := pos + byteUsed;
        payloads := payloads + [payload];
        dataSent := dataSent + 1;
        more := byteUsed == MAX_DATA_LENGTH;
      }
      assert Chunks(contents)[..dataSent] == payloads;
      stop := None;
    }

    /**
     * One round of the write loop: awaits the ACK for the previous block, then
     * reads the next payload of the file and sends it as DATA block blockNumber
     * to the reply port just learned. The round stops the transfer when a failed
     * receive is dereferenced (verbose mode) or when the read or the send throws.
     */
    method WriteRound(contents: seq<byte>, acks: seq<Inbound<AckIn>>, faultAt: Option<nat>,
                      pos: nat, buffer: array<byte>, blockNumber: int,
                      ghost p0: Port, ghost base: seq<Sent>, ghost payloads: seq<Payload>)
      returns (stop: Option<Outcome>, byteUsed: nat, data: array<byte>, ghost payload: Payload)
      requires WriteLoop(contents, acks, p0, base, pos, payloads, false)
      requires |payloads| < |acks| && blockNumber == |payloads| + 1
      requires buffer.Length == MAX_DATA_LENGTH
      modifies this`responsePort, this`sent, buffer
      ensures stop.Some? ==> stop.value in {Aborted, IoFailed}
      ensures stop.Some? ==> sent == old(sent) && responsePort == PortAfter(p0, acks[..blockNumber])
      ensures stop == Some(Aborted) <==> verbose && acks[blockNumber - 1].ReceiveFailed?
      ensures stop == Some(IoFailed) ==> faultAt == Some(blockNumber)
      ensures stop == Some(IoFailed) && verbose ==> AllReceived(acks[..blockNumber])
      ensures stop.None? ==> faultAt != Some(blockNumber)
      ensures stop.None? ==>
                WriteLoop(contents, acks, p0, base, pos + byteUsed, payloads + [payload],
                          byteUsed < MAX_DATA_LENGTH)
      ensures stop.None? ==> byteUsed <= MAX_DATA_LENGTH
      ensures stop.None? && byteUsed == MAX_DATA_LENGTH ==> data == buffer
    {
      byteUsed, data, payload := 0, buffer, [];
      var ack := ReceiveAckPacket(acks[blockNumber - 1]);
      PortAfterSnoc(p0, acks, blockNumber - 1);
      AllReceivedSnoc(acks, blockNumber - 1);
      if ack.None? && verbose {
        // printInformation dereferences the null packet in verbose mode only
        return Some(Aborted), 0, buffer, [];
      }
      if faultAt == Some(blockNumber) {
        // the read from the file or the DATA send threw
        return Some(IoFailed), 0, buffer, [];
      }
      payload := Chunks(contents[pos..])[0];
      byteUsed, data := SendBlock(contents, pos, buffer, blockNumber);
      DataPacketsSnoc(payloads, payload);
      AddressedSnoc(serverAddress, p0, acks, DataPackets(payloads), DATA(blockNumber, payload));
      stop := None;
    }

    /**
     * The read and the send of one round of the write loop: reads up to 512
     * bytes of the file at pos into the buffer (an empty buffer replaces it at
     * end of stream) and sends them as DATA block blockNumber to the reply port.
     * The payload is the next of the file's DATA payloads.
     */
    method SendBlock(contents: seq<byte>, pos: nat, buffer: array<byte>, blockNumber: int)
      returns (byteUsed: nat, data: array<byte>)
      requires pos <= |contents| && buffer.Length == MAX_DATA_LENGTH
      modifies buffer, this`sent
      ensures pos + byteUsed <= |contents|
      ensures sent == old(sent) +
                [Sent(DATA(blockNumber, Chunks(contents[pos..])[0]), serverAddress, responsePort)]
      ensures byteUsed == |Chunks(contents[pos..])[0]|
      ensures byteUsed == MAX_DATA_LENGTH ==>
                Chunks(contents[pos..]) == [Chunks(contents[pos..])[0]] + Chunks(contents[pos + byteUsed..])
      ensures byteUsed < MAX_DATA_LENGTH ==> |Chunks(contents[pos..])| == 1
      ensures byteUsed == MAX_DATA_LENGTH ==> data == buffer
    {
      ChunksStep(contents, pos);
      var n := ReadInto(buffer, contents, pos);
      data := buffer;
      if n == -1 {
        n := 0;
        data := new byte[0];
      }
      byteUsed := n;
      var payload: Payload := data[..byteUsed];
      Send(DATA(blockNumber, payload), responsePort);
    }
  }
}
