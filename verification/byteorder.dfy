/** Host and network byte order for 32-bit values.

    The C code never touches bytes directly: `htonl`/`ntohl` permute a
    value's bytes on a little-endian host and are the identity on a
    big-endian one, and the attribute helpers copy a value's in-memory
    (host-order) representation. The host's byte order is therefore a
    parameter here, and the lemmas show that the composition the code
    uses puts big-endian bytes on the wire whatever the host is. */
module ByteOrder {
  import opened Common

  datatype Endian = BigEndian | LittleEndian

  /** The four bytes of `v`, most significant first (network byte order). */
  function BE32(v: uint32): (b: seq<uint8>)
    ensures |b| == 4
  {
    [v / 0x100_0000, (v / 0x1_0000) % 0x100, (v / 0x100) % 0x100, v % 0x100]
  }

  /** The value whose most-significant-first bytes are `b`. */
  function FromBE32(b: seq<uint8>): uint32
    requires |b| == 4
  {
    (b[0] as int) * 0x100_0000 + (b[1] as int) * 0x1_0000 + (b[2] as int) * 0x100 + b[3] as int
  }

  /** The four bytes of `v`, least significant first. */
  function LE32(v: uint32): (b: seq<uint8>)
    ensures |b| == 4
  {
    [v % 0x100, (v / 0x100) % 0x100, (v / 0x1_0000) % 0x100, v / 0x100_0000]
  }

  function FromLE32(b: seq<uint8>): uint32
    requires |b| == 4
  {
    (b[3] as int) * 0x100_0000 + (b[2] as int) * 0x1_0000 + (b[1] as int) * 0x100 + b[0] as int
  }

  function Reverse4(b: seq<uint8>): (r: seq<uint8>)
    requires |b| == 4
    ensures |r| == 4
  {
    [b[3], b[2], b[1], b[0]]
  }

  /** In-memory representation of a `uint32_t` on a host of the given order. */
  function HostBytes(host: Endian, v: uint32): (b: seq<uint8>)
    ensures |b| == 4
  {
    match host
    case BigEndian => BE32(v)
    case LittleEndian => LE32(v)
  }

  /** The `uint32_t` a host of the given order reads from four bytes of memory. */
  function HostValue(host: Endian, b: seq<uint8>): uint32
    requires |b| == 4
  {
    match host
    case BigEndian => FromBE32(b)
    case LittleEndian => FromLE32(b)
  }

  /** `htonl`: the identity on a big-endian host, a byte swap on a
      little-endian one. Either way the host stores the result as the
      network-order bytes of `v`. */
  function Htonl(host: Endian, v: uint32): (r: uint32)
    ensures HostBytes(host, r) == BE32(v)
  {
    match host
    case BigEndian => v
    case LittleEndian =>
      FromLE32RoundTrip(BE32(v));
      FromLE32(BE32(v))
  }

  /** `htonl` is the identity on a big-endian host and reverses the four
      bytes of its argument on a little-endian one. */
  lemma HtonlSwapsBytes(host: Endian, v: uint32)
    ensures host == BigEndian ==> Htonl(host, v) == v
    ensures host == LittleEndian ==> BE32(Htonl(host, v)) == Reverse4(BE32(v))
  {
    if host == LittleEndian {
      LE32IsReversedBE32(Htonl(host, v));
    }
  }

  /** `ntohl`: the same byte permutation as `htonl`, read in the other
      direction. It undoes `htonl`, and it reads the host bytes of `v` as a
      big-endian number. */
  function Ntohl(host: Endian, v: uint32): (r: uint32)
    ensures Htonl(host, r) == v
    ensures r == FromBE32(HostBytes(host, v))
  {
    match host
    case BigEndian =>
      BE32RoundTrip(v);
      v
    case LittleEndian =>
      FromBE32RoundTrip(LE32(v));
      LE32RoundTrip(v);
      FromBE32(LE32(v))
  }

  /** Splitting a value into base-256 digits and recombining them is the identity. */
  lemma DigitsRecombine(v: uint32)
    ensures (v / 0x100_0000) * 0x100_0000 + ((v / 0x1_0000) % 0x100) * 0x1_0000
            + ((v / 0x100) % 0x100) * 0x100 + v % 0x100 == v
  {
    var a := v / 0x100;
    var b := a / 0x100;
    var c := b / 0x100;
    assert v == a * 0x100 + v % 0x100;
    assert a == b * 0x100 + a % 0x100;
    assert b == c * 0x100 + b % 0x100;
    assert v / 0x1_0000 == b;
    assert v / 0x100_0000 == c;
  }

  lemma BE32RoundTrip(v: uint32)
    ensures FromBE32(BE32(v)) == v
  {
    DigitsRecombine(v);
  }

  /** Dividing `hi * 256 + lo` by 256 recovers both parts. */
  lemma DivModByte(hi: nat, lo: uint8)
    ensures (hi * 0x100 + lo) / 0x100 == hi
    ensures (hi * 0x100 + lo) % 0x100 == lo
  {
  }

  /** The base-256 digits of a value assembled from four bytes are those bytes. */
  lemma DigitsOfBytes(d3: uint8, d2: uint8, d1: uint8, d0: uint8)
    ensures var v := d3 * 0x100_0000 + d2 * 0x1_0000 + d1 * 0x100 + d0;
            && v / 0x100_0000 == d3
            && (v / 0x1_0000) % 0x100 == d2
            && (v / 0x100) % 0x100 == d1
            && v % 0x100 == d0
  {
    var x2 := d3 * 0x100 + d2;
    var x1 := x2 * 0x100 + d1;
    var v := x1 * 0x100 + d0;
    assert v == d3 * 0x100_0000 + d2 * 0x1_0000 + d1 * 0x100 + d0;
    DivModByte(x1, d0);
    DivModByte(x2, d1);
    DivModByte(d3, d2);
    assert v / 0x1_0000 == (v / 0x100) / 0x100;
    assert v / 0x100_0000 == ((v / 0x100) / 0x100) / 0x100;
  }

  lemma FromBE32RoundTrip(b: seq<uint8>)
    requires |b| == 4
    ensures BE32(FromBE32(b)) == b
  {
    DigitsOfBytes(b[0], b[1], b[2], b[3]);
  }

  lemma LE32RoundTrip(v: uint32)
    ensures FromLE32(LE32(v)) == v
  {
    DigitsRecombine(v);
  }

  lemma FromLE32RoundTrip(b: seq<uint8>)
    requires |b| == 4
    ensures LE32(FromLE32(b)) == b
  {
    DigitsOfBytes(b[3], b[2], b[1], b[0]);
  }

  /** Little-endian bytes are big-endian bytes read backwards. */
  lemma LE32IsReversedBE32(v: uint32)
    ensures LE32(v) == Reverse4(BE32(v))
  {
  }

  /** A host reads back exactly the value it stored. */
  lemma HostRoundTrip(host: Endian, v: uint32)
    ensures HostValue(host, HostBytes(host, v)) == v
  {
    match host
    case BigEndian => BE32RoundTrip(v);
    case LittleEndian => LE32RoundTrip(v);
  }

  /** ... and stores back exactly the bytes it read. */
  lemma HostBytesRoundTrip(host: Endian, b: seq<uint8>)
    requires |b| == 4
    ensures HostBytes(host, HostValue(host, b)) == b
  {
    match host
    case BigEndian => FromBE32RoundTrip(b);
    case LittleEndian => FromLE32RoundTrip(b);
  }

  /** `ntohl(htonl(v)) == v` on every host. */
  lemma NtohlHtonl(host: Endian, v: uint32)
    ensures Ntohl(host, Htonl(host, v)) == v
  {
    match host
    case BigEndian =>
    case LittleEndian =>
      FromLE32RoundTrip(BE32(v));
      BE32RoundTrip(v);
  }

  /** Storing `htonl(v)` in host order writes the network-order bytes of `v`,
      whichever order the host uses: the conversion happens exactly once. */
  lemma WireBytesHostIndependent(host: Endian, v: uint32)
    ensures HostBytes(host, Htonl(host, v)) == BE32(v)
  {
    match host
    case BigEndian =>
    case LittleEndian =>
      FromLE32RoundTrip(BE32(v));
  }

  /** Reading four wire bytes in host order and applying `ntohl` yields their
      big-endian value, whichever order the host uses. */
  lemma WireValueHostIndependent(host: Endian, b: seq<uint8>)
    requires |b| == 4
    ensures Ntohl(host, HostValue(host, b)) == FromBE32(b)
  {
    match host
    case BigEndian =>
    case LittleEndian =>
      FromLE32RoundTrip(b);
  }
}
