/** Netlink attributes, at the level the fwd expression sees them.

    An attribute is a 16-bit type word and a payload; the length, padding and
    alignment that frame it in a message belong to the netlink library and
    are not modelled. A nested attribute group is the list of attributes it
    holds, in message order. */
module Netlink {
  import opened Common
  import opened ByteOrder

  datatype Attr = Attr(typ: uint16, payload: seq<uint8>)

  /** The two high bits of the type word are the nested and byte-order flags;
      the type code proper is what remains under the type mask (0x3fff). */
  const TypeMaskModulus: int := 0x4000

  /** `mnl_attr_get_type`: the type code with the flag bits stripped. */
  function TypeOf(a: Attr): (t: nat)
    ensures t < TypeMaskModulus
    ensures a.typ < TypeMaskModulus ==> t == a.typ
    ensures a.typ - t in {0, 0x4000, 0x8000, 0xc000}
  {
    a.typ % TypeMaskModulus
  }

  /** `mnl_attr_type_valid(attr, max) >= 0`: the type code does not exceed `max`. */
  predicate TypeValid(a: Attr, max: nat)
  {
    TypeOf(a) <= max
  }

  /** `mnl_attr_validate(attr, MNL_TYPE_U32) >= 0`: the payload is exactly four bytes. */
  predicate ValidU32(a: Attr)
  {
    |a.payload| == 4
  }

  /** `mnl_attr_put_u32`: an attribute carrying the host representation of `v`. */
  function PutU32(host: Endian, typ: uint16, v: uint32): (a: Attr)
    ensures ValidU32(a)
    ensures a.typ == typ
    ensures HostValue(host, a.payload) == v
  {
    HostRoundTrip(host, v);
    Attr(typ, HostBytes(host, v))
  }

  /** `mnl_attr_get_u32`: the payload read as a host-order `uint32_t`; storing
      the result back in host order gives the payload again. */
  function GetU32(host: Endian, a: Attr): (v: uint32)
    requires ValidU32(a)
    ensures HostBytes(host, v) == a.payload
  {
    HostBytesRoundTrip(host, a.payload);
    HostValue(host, a.payload)
  }

  /** An attribute built with `PutU32` reads back the value that was put. */
  lemma GetPutU32(host: Endian, typ: uint16, v: uint32)
    ensures GetU32(host, PutU32(host, typ, v)) == v
    ensures PutU32(host, typ, v).typ == typ
  {
    HostRoundTrip(host, v);
  }
}
