/**
 * What a TFTP transfer should send and produce, stated as functions of the
 * local file and of the datagrams the network delivers, with the lemmas that
 * say what those functions mean. The client's two transfer loops are proved
 * against these definitions.
 */
module Transfer {
  import opened Wrappers
  import opened Packets

  /** The bytes of a sequence of payloads, in order. */
  function Concat(ps: seq<seq<byte>>): seq<byte>
  {
    if ps == [] then [] else ps[0] + Concat(ps[1..])
  }

  lemma {:induction false} ConcatSnoc(ps: seq<seq<byte>>, p: seq<byte>)
    ensures Concat(ps + [p]) == Concat(ps) + p
  {
    if ps == [] {
      assert ps + [p] == [p];
      assert [p][1..] == [];
    } else {
      assert (ps + [p])[1..] == ps[1..] + [p];
      ConcatSnoc(ps[1..], p);
    }
  }

  // ---------------------------------------------------------------------------
  // Write transfer: how the local file is cut into DATA payloads.
  // ---------------------------------------------------------------------------

  /**
   * The result of one read of at most MAX_DATA_LENGTH bytes from a file stream
   * positioned at pos: -1 at end of stream, otherwise the number of bytes read.
   * Each read is assumed to return min(MAX_DATA_LENGTH, remaining) bytes: it
   * fills the buffer whenever enough bytes remain and otherwise returns all of
   * the rest.
   */
  function StreamRead(file: seq<byte>, pos: nat): (n: int)
    requires pos <= |file|
    ensures n == -1 <==> pos == |file|
    ensures n != -1 ==> 1 <= n <= MAX_DATA_LENGTH && pos + n <= |file|
    ensures n != -1 && n < MAX_DATA_LENGTH ==> pos + n == |file|
  {
    if pos == |file| then -1
    else if |file| - pos < MAX_DATA_LENGTH then |file| - pos
    else MAX_DATA_LENGTH
  }

  /**
   * The payloads of the DATA packets 1, 2, 3, ... of a write transfer: full
   * blocks while at least MAX_DATA_LENGTH bytes remain, then one short block
   * with the rest, which is empty when nothing remains.
   */
  function Chunks(file: seq<byte>): (cs: seq<Payload>)
    ensures |cs| >= 1
    decreases |file|
  {
    if |file| < MAX_DATA_LENGTH then [file]
    else [file[..MAX_DATA_LENGTH]] + Chunks(file[MAX_DATA_LENGTH..])
  }

  /** The payloads put back together give the file. */
  lemma {:induction false} ChunksConcat(file: seq<byte>)
    ensures Concat(Chunks(file)) == file
    decreases |file|
  {
    if |file| < MAX_DATA_LENGTH {
      assert Concat([file]) == file + Concat([]);
    } else {
      var rest := file[MAX_DATA_LENGTH..];
      ChunksConcat(rest);
      assert Chunks(file)[1..] == Chunks(rest);
      assert file == file[..MAX_DATA_LENGTH] + rest;
    }
  }

  /** A file of length L takes L / 512 + 1 DATA packets. */
  lemma {:induction false} ChunksCount(file: seq<byte>)
    ensures |Chunks(file)| == |file| / MAX_DATA_LENGTH + 1
    decreases |file|
  {
    if |file| >= MAX_DATA_LENGTH {
      ChunksCount(file[MAX_DATA_LENGTH..]);
    }
  }

  /**
   * Every payload but the last is full, the last one is short: the transfer
   * goes on exactly while the payload just sent was full.
   */
  lemma {:induction false} ChunksShape(file: seq<byte>)
    ensures |Chunks(file)| >= 1
    ensures forall i :: 0 <= i < |Chunks(file)| - 1 ==> |Chunks(file)[i]| == MAX_DATA_LENGTH
    ensures IsLastDataPacket(Chunks(file)[|Chunks(file)| - 1])
    decreases |file|
  {
    if |file| >= MAX_DATA_LENGTH {
      var rest := file[MAX_DATA_LENGTH..];
      ChunksShape(rest);
      var cs := Chunks(file);
      assert cs == [file[..MAX_DATA_LENGTH]] + Chunks(rest);
      forall i | 0 <= i < |cs| - 1
        ensures |cs[i]| == MAX_DATA_LENGTH
      {
        if i > 0 {
          assert cs[i] == Chunks(rest)[i - 1];
        }
      }
    }
  }

  /** A file whose length is a multiple of 512 ends with an empty DATA packet. */
  lemma {:induction false} ChunksExactMultiple(file: seq<byte>)
    requires |file| % MAX_DATA_LENGTH == 0
    ensures Chunks(file)[|Chunks(file)| - 1] == []
    decreases |file|
  {
    ChunksShape(file);
    if |file| >= MAX_DATA_LENGTH {
      var rest := file[MAX_DATA_LENGTH..];
      ChunksExactMultiple(rest);
      ChunksShape(rest);
      assert Chunks(file) == [file[..MAX_DATA_LENGTH]] + Chunks(rest);
    }
  }

  /** A file of 1024 bytes: DATA payloads of 512, 512 and 0 bytes. */
  lemma WriteOf1024Bytes(file: seq<byte>)
    requires |file| == 1024
    ensures |Chunks(file)| == 3
    ensures |Chunks(file)[0]| == 512 && |Chunks(file)[1]| == 512 && Chunks(file)[2] == []
  {
    ChunksCount(file);
    ChunksShape(file);
    ChunksExactMultiple(file);
  }

  /**
   * Payloads sent so far, followed by the payloads of the rest of the file,
   * are a proper prefix of the file's payloads.
   */
  lemma SentPrefix(file: seq<byte>, sent: seq<Payload>, pos: nat)
    requires pos <= |file| && Chunks(file) == sent + Chunks(file[pos..])
    ensures |sent| < |Chunks(file)| && Chunks(file)[..|sent|] == sent
  {
  }

  /**
   * One round of the write loop: the read at pos yields the next payload, and
   * the loop goes on (the payload is full) exactly when more payloads follow.
   */
  lemma ChunksStep(file: seq<byte>, pos: nat)
    requires pos <= |file|
    ensures var n := StreamRead(file, pos);
            var used := if n == -1 then 0 else n;
            pos + used <= |file| &&
            Chunks(file[pos..]) ==
              [file[pos..pos + used]] +
              (if used == MAX_DATA_LENGTH then Chunks(file[pos + used..]) else [])
  {
    var rest := file[pos..];
    if |rest| >= MAX_DATA_LENGTH {
      assert rest[..MAX_DATA_LENGTH] == file[pos..pos + MAX_DATA_LENGTH];
      assert rest[MAX_DATA_LENGTH..] == file[pos + MAX_DATA_LENGTH..];
      assert Chunks(rest) == [rest[..MAX_DATA_LENGTH]] + Chunks(rest[MAX_DATA_LENGTH..]);
    } else {
      assert rest == file[pos..pos + |rest|];
      assert Chunks(rest) == [rest];
    }
  }

  // ---------------------------------------------------------------------------
  // Block numbers and destinations of the replies the client sends.
  // ---------------------------------------------------------------------------

  /** The DATA packets carrying the payloads cs, numbered from block 1. */
  function DataPackets(cs: seq<Payload>): (r: seq<Packet>)
    ensures |r| == |cs|
  {
    seq(|cs|, i requires 0 <= i < |cs| => DATA(i + 1, cs[i]))
  }

  lemma DataPacketsSnoc(cs: seq<Payload>, c: Payload)
    ensures DataPackets(cs + [c]) == DataPackets(cs) + [DATA(|cs| + 1, c)]
  {
    assert (cs + [c])[..|cs|] == cs;
  }

  /** The ACK packets for blocks 1 .. k, in order. */
  function AckPackets(k: nat): (r: seq<Packet>)
    ensures |r| == k
  {
    seq(k, i requires 0 <= i < k => ACK(i + 1))
  }

  /**
   * The client's reply port after the receives ins, starting from p0: every
   * datagram received overwrites it with its source port, a failed receive
   * leaves it alone.
   */
  function PortAfter<P>(p0: Port, ins: seq<Inbound<P>>): Port
  {
    if ins == [] then p0
    else match ins[|ins| - 1]
      case Received(port, _) => port
      case ReceiveFailed => PortAfter(p0, ins[..|ins| - 1])
  }

  lemma PortAfterSnoc<P>(p0: Port, ins: seq<Inbound<P>>, k: nat)
    requires k < |ins|
    ensures PortAfter(p0, ins[..k + 1]) ==
            if ins[k].Received? then ins[k].sourcePort else PortAfter(p0, ins[..k])
  {
    assert ins[..k + 1][..k] == ins[..k];
  }

  /**
   * The reply port is the source port of the most recently received datagram,
   * and stays p0 while nothing has been received.
   */
  lemma {:induction false} PortAfterIsLatest<P>(p0: Port, ins: seq<Inbound<P>>)
    ensures (forall i :: 0 <= i < |ins| ==> ins[i].ReceiveFailed?) ==> PortAfter(p0, ins) == p0
    ensures forall j :: 0 <= j < |ins| && ins[j].Received? &&
                        (forall k :: j < k < |ins| ==> ins[k].ReceiveFailed?) ==>
                        PortAfter(p0, ins) == ins[j].sourcePort
  {
    if ins != [] {
      var front := ins[..|ins| - 1];
      PortAfterIsLatest(p0, front);
      if ins[|ins| - 1].ReceiveFailed? {
        forall j | 0 <= j < |ins| && ins[j].Received? &&
                   (forall k :: j < k < |ins| ==> ins[k].ReceiveFailed?)
          ensures PortAfter(p0, ins) == ins[j].sourcePort
        {
          assert j < |ins| - 1;
          assert front[j] == ins[j];
          forall k | j < k < |front|
            ensures front[k].ReceiveFailed?
          {
            assert front[k] == ins[k];
          }
        }
      }
    }
  }

  /** No receive among ins failed. */
  predicate AllReceived<P>(ins: seq<Inbound<P>>) {
    forall i :: 0 <= i < |ins| ==> ins[i].Received?
  }

  lemma AllReceivedSnoc<P>(ins: seq<Inbound<P>>, k: nat)
    requires k < |ins|
    ensures AllReceived(ins[..k + 1]) <==> AllReceived(ins[..k]) && ins[k].Received?
  {
    assert ins[..k + 1] == ins[..k] + [ins[k]];
  }

  /**
   * The packets pkts sent as replies, the i-th one after the (i+1)-th receive
   * of ins, each addressed to addr at the reply port learned by then.
   */
  function Addressed<P>(addr: Address, p0: Port, ins: seq<Inbound<P>>, pkts: seq<Packet>): (r: seq<Sent>)
    requires |pkts| <= |ins|
    ensures |r| == |pkts|
  {
    seq(|pkts|, i requires 0 <= i < |pkts| => Sent(pkts[i], addr, PortAfter(p0, ins[..i + 1])))
  }

  lemma AddressedSnoc<P>(addr: Address, p0: Port, ins: seq<Inbound<P>>, pkts: seq<Packet>, p: Packet)
    requires |pkts| < |ins|
    ensures Addressed(addr, p0, ins, pkts + [p]) ==
            Addressed(addr, p0, ins, pkts) + [Sent(p, addr, PortAfter(p0, ins[..|pkts| + 1]))]
  {
    assert (pkts + [p])[..|pkts|] == pkts;
  }

  /**
   * An IOException due at step faultAt is reached by a write transfer of file:
   * step 0 is the request itself, step k >= 1 the round of DATA block k, reached
   * when block k is one of the file's payloads and its ACK receive returns; in
   * verbose mode every ACK receive up to it must have succeeded, since a failed
   * one aborts the transfer first.
   */
  predicate WriteReachesFault(file: seq<byte>, acks: seq<Inbound<AckIn>>, faultAt: Option<nat>, verbose: bool)
  {
    faultAt.Some? && faultAt.value <= |Chunks(file)| && faultAt.value <= |acks| &&
    (verbose ==> AllReceived(acks[..faultAt.value]))
  }

  /**
   * A write transfer whose ACKs all arrive sends DATA block i + 1 with the
   * i-th payload of the file to the source port of the i-th ACK.
   */
  lemma WriteDataTrace(addr: Address, p0: Port, acks: seq<Inbound<AckIn>>, file: seq<byte>)
    requires |Chunks(file)| <= |acks| && AllReceived(acks[..|Chunks(file)|])
    ensures forall i :: 0 <= i < |Chunks(file)| ==>
              Addressed(addr, p0, acks, DataPackets(Chunks(file)))[i] ==
              Sent(DATA(i + 1, Chunks(file)[i]), addr, acks[i].sourcePort)
  {
  }

  // ---------------------------------------------------------------------------
  // Read transfer: which received DATA packets a transfer consumes, and what it
  // writes to the local file.
  // ---------------------------------------------------------------------------

  /**
   * Some(n) when the first n receives are DATA packets and the n-th is the first
   * short one, so that a read transfer ends after exactly n packets; None when a
   * receive fails or the sequence ends first.
   */
  function Completes(ins: seq<Inbound<DataIn>>): (r: Option<nat>)
    ensures r.Some? ==> 1 <= r.value <= |ins|
  {
    if ins == [] || ins[0].ReceiveFailed? then None
    else if IsLastDataPacket(ins[0].packet.payload) then Some(1)
    else match Completes(ins[1..])
      case None => None
      case Some(n) => Some(n + 1)
  }

  /** Completes(ins) == Some(n) exactly when packets 1 .. n arrived and only the n-th is short. */
  lemma {:induction false} CompletesIff(ins: seq<Inbound<DataIn>>, n: nat)
    ensures Completes(ins) == Some(n) <==>
            1 <= n <= |ins| &&
            forall i :: 0 <= i < n ==>
              ins[i].Received? && (IsLastDataPacket(ins[i].packet.payload) <==> i == n - 1)
  {
    if ins != [] && ins[0].Received? && !IsLastDataPacket(ins[0].packet.payload) {
      var rest := ins[1..];
      if n >= 1 {
        CompletesIff(rest, n - 1);
        var shifted := n - 1 <= |rest| && forall i :: 0 <= i < n - 1 ==>
          rest[i].Received? && (IsLastDataPacket(rest[i].packet.payload) <==> i == n - 2);
        var whole := n <= |ins| && forall i :: 0 <= i < n ==>
          ins[i].Received? && (IsLastDataPacket(ins[i].packet.payload) <==> i == n - 1);
        if whole {
          forall i | 0 <= i < n - 1
            ensures rest[i].Received? && (IsLastDataPacket(rest[i].packet.payload) <==> i == n - 2)
          {
            assert rest[i] == ins[i + 1];
          }
        }
        if shifted && n <= |ins| && n >= 2 {
          forall i | 0 <= i < n
            ensures ins[i].Received? && (IsLastDataPacket(ins[i].packet.payload) <==> i == n - 1)
          {
            if i > 0 {
              assert ins[i] == rest[i - 1];
            }
          }
        }
      }
    }
  }

  /**
   * Once a read transfer has seen its last packet, later datagrams play no
   * part: they are never consumed.
   */
  lemma CompletesIgnoresRest(ins: seq<Inbound<DataIn>>, more: seq<Inbound<DataIn>>)
    requires Completes(ins).Some?
    ensures Completes(ins[..Completes(ins).value] + more) == Completes(ins)
  {
    var n := Completes(ins).value;
    var ins' := ins[..n] + more;
    CompletesIff(ins, n);
    forall i | 0 <= i < n
      ensures ins'[i] == ins[i]
    {
    }
    CompletesIff(ins', n);
  }

  /** The first k receives are all full DATA packets, none of them the last. */
  predicate FullBlocks(ins: seq<Inbound<DataIn>>, k: nat)
    requires k <= |ins|
  {
    forall i :: 0 <= i < k ==> ins[i].Received? && !IsLastDataPacket(ins[i].packet.payload)
  }

  /**
   * An IOException due at step faultAt is reached by a read transfer: step 0 is
   * the request itself, step k >= 1 the round of the k-th DATA packet, reached
   * when that packet arrives after k - 1 full ones.
   */
  predicate ReadReachesFault(ins: seq<Inbound<DataIn>>, faultAt: Option<nat>)
  {
    faultAt.Some? && faultAt.value <= |ins| &&
    (faultAt.value == 0 ||
     (FullBlocks(ins, faultAt.value - 1) && ins[faultAt.value - 1].Received?))
  }

  /**
   * While the first k receives are full DATA packets, a read transfer that
   * completes at all needs more than k packets, the (k+1)-th among them.
   */
  lemma CompletesBeyond(ins: seq<Inbound<DataIn>>, k: nat)
    requires k <= |ins| && FullBlocks(ins, k)
    ensures Completes(ins).Some? ==> k < Completes(ins).value && ins[k].Received?
  {
    if Completes(ins).Some? {
      var n := Completes(ins).value;
      CompletesIff(ins, n);
      assert IsLastDataPacket(ins[n - 1].packet.payload);
    }
  }

  /**
   * After k full DATA packets, the (k+1)-th decides: a short one completes the
   * transfer with k + 1 packets, a full one extends the full prefix.
   */
  lemma FullBlocksStep(ins: seq<Inbound<DataIn>>, k: nat)
    requires k < |ins| && FullBlocks(ins, k) && ins[k].Received?
    ensures IsLastDataPacket(ins[k].packet.payload) ==> Completes(ins) == Some(k + 1)
    ensures !IsLastDataPacket(ins[k].packet.payload) ==> FullBlocks(ins, k + 1)
  {
    CompletesIff(ins, k + 1);
  }

  /** What a payload adds to the local file: nothing for a failed receive. */
  function PayloadOf(d: Inbound<DataIn>): seq<byte>
  {
    match d
    case Received(_, p) => p.payload
    case ReceiveFailed => []
  }

  /**
   * A completed read transfer acknowledges DATA packet i + 1 with ACK i + 1,
   * sent to the source port of that DATA packet.
   */
  lemma ReadAckTrace(addr: Address, p0: Port, ins: seq<Inbound<DataIn>>)
    requires Completes(ins).Some?
    ensures forall i :: 0 <= i < Completes(ins).value ==>
              ins[i].Received? &&
              Addressed(addr, p0, ins, AckPackets(Completes(ins).value))[i] ==
              Sent(ACK(i + 1), addr, ins[i].sourcePort)
  {
  }

  /** The bytes the read transfer appends to the local file for the receives ins, in order. */
  function Written(ins: seq<Inbound<DataIn>>): seq<byte>
  {
    if ins == [] then [] else Written(ins[..|ins| - 1]) + PayloadOf(ins[|ins| - 1])
  }

  /**
   * The file a completed read transfer writes has 512 bytes for every packet but
   * the last, then the last, short, payload.
   */
  lemma ReadLength(ins: seq<Inbound<DataIn>>)
    requires Completes(ins).Some?
    ensures |Written(ins[..Completes(ins).value])| ==
            MAX_DATA_LENGTH * (Completes(ins).value - 1) + |PayloadOf(ins[Completes(ins).value - 1])|
    ensures |PayloadOf(ins[Completes(ins).value - 1])| < MAX_DATA_LENGTH
  {
    var n := Completes(ins).value;
    CompletesIff(ins, n);
    FullPrefixLength(ins, n - 1);
    assert ins[..n][..n - 1] == ins[..n - 1];
  }

  lemma {:induction false} FullPrefixLength(ins: seq<Inbound<DataIn>>, k: nat)
    requires k <= |ins| && FullBlocks(ins, k)
    ensures |Written(ins[..k])| == MAX_DATA_LENGTH * k
  {
    if k > 0 {
      FullPrefixLength(ins, k - 1);
      assert ins[..k][..k - 1] == ins[..k - 1];
    }
  }

  /** The datagrams a server sends for the payloads cs, from the given source ports. */
  function Delivered(ports: seq<Port>, cs: seq<Payload>): (ins: seq<Inbound<DataIn>>)
    requires |ports| == |cs|
    ensures |ins| == |cs|
  {
    seq(|cs|, i requires 0 <= i < |cs| => Received(ports[i], DataIn(i + 1, cs[i])))
  }

  lemma {:induction false} WrittenDelivered(ports: seq<Port>, cs: seq<Payload>)
    requires |ports| == |cs|
    ensures Written(Delivered(ports, cs)) == Concat(cs)
  {
    if cs != [] {
      var k := |cs| - 1;
      WrittenDelivered(ports[..k], cs[..k]);
      assert Delivered(ports, cs)[..k] == Delivered(ports[..k], cs[..k]);
      ConcatSnoc(cs[..k], cs[k]);
      assert cs[..k] + [cs[k]] == cs;
    }
  }

  /**
   * Round trip: the DATA payloads a write transfer cuts from a file, received by
   * a read transfer, make it stop after the last of them and write the same file.
   */
  lemma WriteThenRead(file: seq<byte>, ports: seq<Port>)
    requires |ports| == |Chunks(file)|
    ensures Completes(Delivered(ports, Chunks(file))) == Some(|Chunks(file)|)
    ensures Written(Delivered(ports, Chunks(file))) == file
  {
    var cs := Chunks(file);
    var ins := Delivered(ports, cs);
    ChunksShape(file);
    CompletesIff(ins, |cs|);
    WrittenDelivered(ports, cs);
    ChunksConcat(file);
  }
}
