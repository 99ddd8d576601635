/**
 * The byte packets the TLS layer hands around (struct s_ssl_packet): a payload buffer the
 * packet owns and its size. A packet is built by copying the caller's bytes into a fresh
 * buffer, and released buffer first.
 */
module SslPacket {
  import opened Errno

  class Packet {
    /** The payload buffer, allocated for this packet alone. */
    const payload: array<uint8>
    const size: uint32

    ghost predicate Valid()
    {
      payload.Length == size as int
    }

    /** The bytes the packet carries. */
    function Bytes(): (bytes: seq<uint8>)
      reads payload
      ensures |bytes| == payload.Length
    {
      payload[..]
    }

    /** The allocation and memcpy of s_ssl_packet_new: the first size bytes of source, copied. */
    constructor (source: array<uint8>, size: uint32)
      requires size as int <= source.Length
      ensures Valid() && this.size == size && fresh(payload)
      ensures payload[..] == source[..size]
    {
      var buffer := new uint8[size];
      for i := 0 to size as int
        invariant buffer[..i] == source[..i]
      {
        buffer[i] := source[i];
      }
      assert buffer[..] == buffer[..size as int];
      payload := buffer;
      this.size := size;
    }
  }

  /**
   * s_ssl_packet_new: a NULL payload gives NULL; otherwise a packet of the requested size
   * holding a copy of the first size bytes, in a buffer of its own.
   */
  method New(payload: array?<uint8>, size: uint32) returns (p: Packet?)
    requires payload != null ==> size as int <= payload.Length
    ensures p == null <==> payload == null
    ensures p != null ==> fresh(p) && fresh(p.payload) && p.Valid() && p.size == size &&
                          p.Bytes() == payload[..size]
  {
    if payload == null {
      return null;
    }
    p := new Packet(payload, size);
  }

  /**
   * A packet made by New owns its bytes: writing into the caller's buffer afterwards leaves
   * the packet holding the bytes the buffer had when it was made.
   */
  method OverwriteSource(source: array<uint8>, size: uint32, i: nat, b: uint8) returns (p: Packet?)
    requires size as int <= source.Length && i < source.Length
    modifies source
    ensures p != null && source[i] == b && p.Bytes() == old(source[..size])
  {
    p := New(source, size);
    source[i] := b;
  }

  /** What s_ssl_packet_free hands back to the allocator, in order. */
  datatype Release = PayloadBuffer(packet: Packet) | PacketRecord(packet: Packet)

  /** s_ssl_packet_free: the payload, then the packet; nothing for NULL. */
  method Free(p: Packet?) returns (released: seq<Release>)
    ensures p == null ==> released == []
    ensures p != null ==> released == [PayloadBuffer(p), PacketRecord(p)]
  {
    if p == null {
      return [];
    }
    released := [PayloadBuffer(p), PacketRecord(p)];
  }
}
