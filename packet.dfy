/** The radio packet: the packed 32-byte struct every transfer is framed in.
    Byte 0 is the packet type, bytes 1..4 the 32-bit sequence field (stored
    little-endian here, the order of the Raspberry Pi host) and bytes 5..31
    a 27-byte payload. */
module PacketCodec {

  type byte = b: int | 0 <= b < 256
  type u32 = x: int | 0 <= x < 0x1_0000_0000

  const TIPO_HEADER: byte := 1
  const TIPO_DATA: byte := 2
  const TIPO_FIN: byte := 3

  /** Payload capacity of one packet (sizeof the struct's data array). */
  const DATA_BYTES: nat := 27
  /** Size of the whole packet on the wire. */
  const PACKET_SIZE: nat := 32

  type Payload = s: seq<byte> | |s| == DATA_BYTES witness seq(27, _ => 0)
  type Frame = s: seq<byte> | |s| == PACKET_SIZE witness seq(32, _ => 0)

  /** One packet as the program sees it. The type byte is kept as a byte:
      a received packet may carry any value there. */
  datatype Packet = Packet(kind: byte, sequence: u32, data: Payload)

  function Zeros(n: nat): (z: seq<byte>)
    ensures |z| == n && forall i :: 0 <= i < n ==> z[i] == 0
  {
    seq(n, _ => 0)
  }

  /** Number of 27-byte blocks needed for n bytes, rounded up. */
  function BlocksFor(n: nat): nat
  {
    (n + 26) / 27
  }

  /** The in-memory image of a uint32 on the boards: least significant
      byte first. */
  function U32ToBytes(x: u32): (b: seq<byte>)
    ensures |b| == 4
    ensures b[0] == x % 0x100 && b[1] == (x / 0x100) % 0x100
    ensures b[2] == (x / 0x1_0000) % 0x100 && b[3] == x / 0x100_0000
  {
    var x1 := x / 256;
    var x2 := x1 / 256;
    [x % 256, x1 % 256, x2 % 256, x2 / 256]
  }

  /** The uint32 whose little-endian image is b. */
  function U32FromBytes(b: seq<byte>): (x: u32)
    requires |b| == 4
    ensures x == b[0] as int + 0x100 * b[1] as int + 0x1_0000 * b[2] as int + 0x100_0000 * b[3] as int
  {
    var b0, b1, b2, b3: int := b[0], b[1], b[2], b[3];
    b0 + 256 * (b1 + 256 * (b2 + 256 * b3))
  }

  lemma U32RoundTrip(x: u32)
    ensures U32FromBytes(U32ToBytes(x)) == x
  {
    var x1 := x / 256;
    var x2 := x1 / 256;
    assert x == x % 256 + 256 * x1;
    assert x1 == x1 % 256 + 256 * x2;
    assert x2 == x2 % 256 + 256 * (x2 / 256);
  }

  lemma U32BytesRoundTrip(b: seq<byte>)
    requires |b| == 4
    ensures U32ToBytes(U32FromBytes(b)) == b
  {
    var b0, b1, b2, b3: int := b[0], b[1], b[2], b[3];
    var x2 := b2 + 256 * b3;
    var x1 := b1 + 256 * x2;
    var x := b0 + 256 * x1;
    assert x / 256 == x1 && x % 256 == b[0];
    assert x1 / 256 == x2 && x1 % 256 == b[1];
    assert x2 / 256 == b[3] && x2 % 256 == b[2];
  }

  /** The packet's memory image: what radio.write hands to the link. */
  function Encode(p: Packet): (f: Frame)
    ensures f[0] == p.kind
    ensures U32FromBytes(f[1..5]) == p.sequence
    ensures f[5..] == p.data
  {
    U32RoundTrip(p.sequence);
    [p.kind] + U32ToBytes(p.sequence) + p.data
  }

  /** What radio.read leaves in the packet buffer for a received frame. */
  function Decode(f: Frame): (p: Packet)
    ensures p.kind == f[0] && p.data == f[5..]
    ensures U32ToBytes(p.sequence) == f[1..5]
  {
    U32BytesRoundTrip(f[1..5]);
    Packet(f[0], U32FromBytes(f[1..5]), f[5..])
  }

  lemma DecodeEncode(p: Packet)
    ensures Decode(Encode(p)) == p
  {
    var f := Encode(p);
    assert f[1..5] == U32ToBytes(p.sequence);
    U32RoundTrip(p.sequence);
  }

  lemma EncodeDecode(f: Frame)
    ensures Encode(Decode(f)) == f
  {
    var p := Decode(f);
    assert f == [f[0]] + f[1..5] + f[5..];
  }

  function EncodeAll(ps: seq<Packet>): (fs: seq<Frame>)
    ensures |fs| == |ps| && forall i :: 0 <= i < |ps| ==> fs[i] == Encode(ps[i])
  {
    seq(|ps|, i requires 0 <= i < |ps| => Encode(ps[i]))
  }

  function DecodeAll(fs: seq<Frame>): (ps: seq<Packet>)
    ensures |ps| == |fs| && forall i :: 0 <= i < |fs| ==> ps[i] == Decode(fs[i])
  {
    seq(|fs|, i requires 0 <= i < |fs| => Decode(fs[i]))
  }

  /** Packets survive the trip over the wire unchanged. */
  lemma DecodeAllEncodeAll(ps: seq<Packet>)
    ensures DecodeAll(EncodeAll(ps)) == ps
  {
    forall i | 0 <= i < |ps|
      ensures DecodeAll(EncodeAll(ps))[i] == ps[i]
    {
      DecodeEncode(ps[i]);
    }
  }
}
