/**
 * The packets a TFTP client exchanges with a server (RFC 1350), kept abstract.
 * The byte-level encoding belongs to the packet classes TFTPRequestPacket,
 * TFTPDataPacket and TFTPAckPacket, which are not part of this model: a packet
 * here is only its kind, its block number and its payload.
 */
module Packets {
  newtype byte = b: int | 0 <= b < 256

  /** Largest DATA payload (TFTPDataPacket.MAX_DATA_LENGTH, 512 in section 2 of RFC 1350). */
  const MAX_DATA_LENGTH: nat := 512

  /** The server port a client uses when none is given. */
  const DEFAULT_PORT: int := 69

  /** A DATA payload: at most MAX_DATA_LENGTH bytes. */
  type Payload = s: seq<byte> | |s| <= MAX_DATA_LENGTH

  type Port = int
  type Address = seq<byte>

  /** A DATA packet ends its transfer exactly when its payload is short. */
  predicate IsLastDataPacket(payload: Payload) {
    |payload| < MAX_DATA_LENGTH
  }

  /** The packets the client builds. */
  datatype Packet =
    | RRQ(filename: string)
    | WRQ(filename: string)
    | DATA(block: int, payload: Payload)
    | ACK(block: int)

  /** One datagram the client sent: the packet and where it went. */
  datatype Sent = Sent(packet: Packet, address: Address, port: Port)

  /** What the client decodes from a DATA or an ACK datagram it receives. */
  datatype DataIn = DataIn(block: int, payload: Payload)
  datatype AckIn = AckIn(block: int)

  /**
   * One receive on the client's socket: a datagram from some source port, or a
   * receive that failed with an I/O error (the receive helpers then return null).
   */
  datatype Inbound<P> = Received(sourcePort: Port, packet: P) | ReceiveFailed
}
