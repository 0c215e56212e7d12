/** The "fwd" (forward) expression kind: storage, field accessors, attribute
    validation, netlink build and parse, and its operations descriptor.

    Field and attribute codes are those of the libnftnl and Linux
    nf_tables headers: the library-side codes NFTNL_EXPR_FWD_SREG_DEV,
    _SREG_ADDR and _NFPROTO are 1, 2 and 3 (the first kind-specific code
    follows the generic name attribute 0), and the wire codes
    NFTA_FWD_SREG_DEV, _SREG_ADDR and _NFPROTO are 1, 2 and 3 after the
    reserved NFTA_FWD_UNSPEC 0, so NFTA_FWD_MAX is 3. */
module Fwd {
  import opened Common
  import opened ByteOrder
  import opened Netlink

  /** The three fields of `struct nftnl_expr_fwd`. */
  datatype Field = SregDev | SregAddr | Nfproto

  /** The order in which build and render visit the fields. */
  const FieldOrder: seq<Field> := [SregDev, SregAddr, Nfproto]

  /** Library-side code of a field; it also numbers the field's presence bit. */
  function FieldCode(f: Field): uint16
  {
    match f
    case SregDev => 1
    case SregAddr => 2
    case Nfproto => 3
  }

  /** `__NFTNL_EXPR_FWD_MAX`: one past the last library-side code. */
  const NftnlExprFwdMax: uint16 := 4

  /** The field a library-side code selects, if any. */
  function FieldOfCode(code: int): (r: Option<Field>)
    ensures r.Some? ==> FieldCode(r.value) == code
    ensures r.None? ==> forall f :: FieldCode(f) != code
  {
    if code == 1 then Some(SregDev)
    else if code == 2 then Some(SregAddr)
    else if code == 3 then Some(Nfproto)
    else None
  }

  /** Wire attribute code of a field. */
  function AttrCode(f: Field): uint16
  {
    match f
    case SregDev => 1
    case SregAddr => 2
    case Nfproto => 3
  }

  /** `NFTA_FWD_MAX`: the highest wire attribute code of the kind. */
  const NftaFwdMax: nat := 3

  /** The field a wire attribute code carries, if any. */
  function FieldOfAttrCode(code: int): (r: Option<Field>)
    ensures r.Some? ==> AttrCode(r.value) == code
    ensures r.None? ==> forall f :: AttrCode(f) != code
  {
    if code == 1 then Some(SregDev)
    else if code == 2 then Some(SregAddr)
    else if code == 3 then Some(Nfproto)
    else None
  }

  /** A bit position of the 32-bit `flags` word. */
  type BitIndex = x: nat | x < 32

  /** The `flags` word, as the set of positions of its one bits: `flags |=
      1 << k` adds `k`, and `flags & (1 << k)` tests `k in flags`. */
  type FlagWord = set<BitIndex>

  /** A fwd expression: the generic expression's `flags` word together with
      the kind's typed storage. */
  datatype FwdExpr = FwdExpr(flags: FlagWord, sregDev: uint32, sregAddr: uint32, nfproto: uint32)

  /** The position of a field's presence bit, `1 << FieldCode(f)`. */
  function Bit(f: Field): BitIndex
  {
    FieldCode(f) as nat
  }

  /** All presence bits this kind uses. */
  const FwdMask: FlagWord := {1, 2, 3}

  predicate Has(e: FwdExpr, f: Field)
  {
    Bit(f) in e.flags
  }

  /** No presence bit of the kind is set exactly when no field is present. */
  lemma NoFieldIffMaskClear(e: FwdExpr)
    ensures e.flags * FwdMask == {} <==> !Has(e, SregDev) && !Has(e, SregAddr) && !Has(e, Nfproto)
  {
    if e.flags * FwdMask == {} {
      assert Bit(SregDev) !in e.flags * FwdMask;
      assert Bit(SregAddr) !in e.flags * FwdMask;
      assert Bit(Nfproto) !in e.flags * FwdMask;
    } else {
      var k :| k in e.flags * FwdMask;
      assert k == Bit(SregDev) || k == Bit(SregAddr) || k == Bit(Nfproto);
    }
  }

  function Value(e: FwdExpr, f: Field): uint32
  {
    match f
    case SregDev => e.sregDev
    case SregAddr => e.sregAddr
    case Nfproto => e.nfproto
  }

  /** `e` with the storage of `f` overwritten by `v`; flags untouched. */
  function WithValue(e: FwdExpr, f: Field, v: uint32): (r: FwdExpr)
    ensures r.flags == e.flags
    ensures Value(r, f) == v
    ensures forall g :: g != f ==> Value(r, g) == Value(e, g)
  {
    match f
    case SregDev => e.(sregDev := v)
    case SregAddr => e.(sregAddr := v)
    case Nfproto => e.(nfproto := v)
  }

  /** ASSUMPTION about the generic allocator, which is not part of this model:
      a new expression has zeroed storage and no flag set. Only the round trip
      into a fresh expression relies on it; build-then-parse is stated for
      any target expression. */
  const Fresh: FwdExpr := FwdExpr({}, 0, 0, 0)

  /** `e` cut down to what the kind itself records: the kind's presence bits,
      the values of present fields, and zero for absent ones. */
  function Restrict(e: FwdExpr): FwdExpr
  {
    FwdExpr(e.flags * FwdMask,
            if Has(e, SregDev) then e.sregDev else 0,
            if Has(e, SregAddr) then e.sregAddr else 0,
            if Has(e, Nfproto) then e.nfproto else 0)
  }

  // ---------------------------------------------------------------------
  // set / get

  /** The expression after `nftnl_expr_fwd_set`, and the value it returns. */
  datatype SetOutcome = SetOutcome(expr: FwdExpr, ret: int)

  /** `nftnl_expr_fwd_set`: copy four bytes of `data`, read in host order, into
      the selected field. Neither `dataLen` nor the presence bits are touched;
      an unrecognised code leaves the expression as it was. The copy reads four
      bytes whatever `dataLen` says, so the caller must supply them. */
  function KindSet(host: Endian, e: FwdExpr, typ: uint16, data: seq<uint8>, dataLen: uint32): (r: SetOutcome)
    requires FieldOfCode(typ).Some? ==> |data| >= 4
    ensures r.ret == 0
    ensures r.expr.flags == e.flags
    ensures FieldOfCode(typ).None? ==> r.expr == e
    ensures FieldOfCode(typ).Some? ==>
              && HostBytes(host, Value(r.expr, FieldOfCode(typ).value)) == data[..4]
              && forall g :: g != FieldOfCode(typ).value ==> Value(r.expr, g) == Value(e, g)
  {
    match FieldOfCode(typ)
    case None => SetOutcome(e, 0)
    case Some(f) =>
      HostBytesRoundTrip(host, data[..4]);
      SetOutcome(WithValue(e, f, HostValue(host, data[..4])), 0)
  }

  /** What `nftnl_expr_fwd_get` hands back: the field's bytes and `*data_len`. */
  datatype Got = Got(data: seq<uint8>, dataLen: uint32)

  /** `nftnl_expr_fwd_get`: the selected field's four host-order bytes, or
      `None` (NULL) for an unrecognised code. Presence is not consulted. */
  function KindGet(host: Endian, e: FwdExpr, typ: uint16): (r: Option<Got>)
    ensures r.Some? <==> FieldOfCode(typ).Some?
    ensures r.Some? ==>
              && r.value.dataLen == 4
              && |r.value.data| == 4
              && HostValue(host, r.value.data) == Value(e, FieldOfCode(typ).value)
  {
    match FieldOfCode(typ)
    case None => None
    case Some(f) =>
      HostRoundTrip(host, Value(e, f));
      Some(Got(HostBytes(host, Value(e, f)), 4))
  }

  /** ASSUMPTION, not shown in the fwd source: the generic setter calls the
      kind's setter and then sets the field's presence bit. */
  function GenericSet(host: Endian, e: FwdExpr, f: Field, data: seq<uint8>, dataLen: uint32): (r: FwdExpr)
    requires |data| >= 4
    ensures r.flags == e.flags + {Bit(f)}
  {
    var o := KindSet(host, e, FieldCode(f), data, dataLen);
    o.expr.(flags := o.expr.flags + {Bit(f)})
  }

  /** ASSUMPTION, not shown in the fwd source: the generic getter answers NULL
      for a field whose presence bit is clear and otherwise asks the kind. */
  function GenericGet(host: Endian, e: FwdExpr, f: Field): (r: Option<Got>)
    ensures r.Some? <==> Has(e, f)
  {
    if !Has(e, f) then None else KindGet(host, e, FieldCode(f))
  }

  // ---------------------------------------------------------------------
  // Attribute validation and parsing

  /** The attribute table `tb`, indexed by wire type code. */
  type Table = map<nat, Attr>

  /** `abi_breakage()` aborts the process; here it is an error value. */
  datatype ParseError = AbiBreakage

  /** The attribute's type code names one of the three fields. */
  predicate Recognised(a: Attr)
  {
    FieldOfAttrCode(TypeOf(a)).Some?
  }

  /** A recognised attribute whose payload is not a valid u32. */
  predicate Breaks(a: Attr)
  {
    Recognised(a) && !ValidU32(a)
  }

  /** Every entry sits under its own in-range code, and every recognised
      entry carries a valid u32. */
  predicate WellFormedTable(tb: Table)
  {
    forall t :: t in tb ==> t <= NftaFwdMax && TypeOf(tb[t]) == t && (Recognised(tb[t]) ==> ValidU32(tb[t]))
  }

  /** `nftnl_expr_fwd_cb` applied to one attribute. */
  function Cb(tb: Table, a: Attr): (r: Result<Table, ParseError>)
    requires WellFormedTable(tb)
    ensures !TypeValid(a, NftaFwdMax) ==> r == Ok(tb)
    ensures r.Err? <==> Breaks(a)
    ensures r.Ok? ==> WellFormedTable(r.value)
    ensures r.Ok? && TypeValid(a, NftaFwdMax) ==> r.value == tb[TypeOf(a) := a]
  {
    if !TypeValid(a, NftaFwdMax) then Ok(tb)
    else if Recognised(a) && !ValidU32(a) then Err(AbiBreakage)
    else Ok(tb[TypeOf(a) := a])
  }

  /** `mnl_attr_parse_nested` with `nftnl_expr_fwd_cb`, starting from an empty
      table: the callback visits the attributes in order and the first
      breaking attribute aborts. */
  function ParseNested(attrs: seq<Attr>): (r: Result<Table, ParseError>)
    ensures r.Err? <==> exists i :: 0 <= i < |attrs| && Breaks(attrs[i])
    ensures r.Ok? ==> WellFormedTable(r.value)
    ensures r.Ok? ==> forall t :: t in r.value <==> t <= NftaFwdMax && exists i :: 0 <= i < |attrs| && TypeOf(attrs[i]) == t
    decreases |attrs|
  {
    if |attrs| == 0 then Ok(map[])
    else
      match ParseNested(attrs[..|attrs| - 1])
      case Err(err) => Err(err)
      case Ok(tb) => Cb(tb, attrs[|attrs| - 1])
  }

  /** One `if (tb[...])` step of `nftnl_expr_fwd_parse`. */
  function Absorb(host: Endian, e: FwdExpr, tb: Table, f: Field): (r: FwdExpr)
    requires WellFormedTable(tb)
    ensures Has(r, f) <==> Has(e, f) || AttrCode(f) in tb
    ensures forall k: BitIndex :: k != Bit(f) ==> (k in r.flags <==> k in e.flags)
    ensures forall g :: g != f ==> Value(r, g) == Value(e, g)
    ensures AttrCode(f) !in tb ==> Value(r, f) == Value(e, f)
    ensures AttrCode(f) in tb ==> ValidU32(tb[AttrCode(f)]) && Value(r, f) == FromBE32(tb[AttrCode(f)].payload)
  {
    if AttrCode(f) in tb then
      var a := tb[AttrCode(f)];
      assert Recognised(a);
      WireValueHostIndependent(host, a.payload);
      WithValue(e, f, Ntohl(host, GetU32(host, a))).(flags := e.flags + {Bit(f)})
    else e
  }

  /** `nftnl_expr_fwd_parse`: validate the nested attributes, then copy each
      field that has an attribute and set its presence bit. */
  function Parse(host: Endian, e: FwdExpr, attrs: seq<Attr>): (r: Result<FwdExpr, ParseError>)
    ensures r.Err? <==> exists i :: 0 <= i < |attrs| && Breaks(attrs[i])
    ensures r.Ok? ==> forall f :: Has(r.value, f) <==> Has(e, f) || exists i :: 0 <= i < |attrs| && TypeOf(attrs[i]) == AttrCode(f)
    ensures r.Ok? ==> forall k: BitIndex :: k !in FwdMask ==> (k in r.value.flags <==> k in e.flags)
  {
    match ParseNested(attrs)
    case Err(err) => Err(err)
    case Ok(tb) =>
      Ok(Absorb(host, Absorb(host, Absorb(host, e, tb, SregDev), tb, SregAddr), tb, Nfproto))
  }

  // ---------------------------------------------------------------------
  // Build

  /** One `if (e->flags & ...)` step of `nftnl_expr_fwd_build`. */
  function Emit(host: Endian, e: FwdExpr, f: Field): (r: seq<Attr>)
    ensures Has(e, f) ==> r == [Attr(AttrCode(f), BE32(Value(e, f)))]
    ensures !Has(e, f) ==> r == []
  {
    WireBytesHostIndependent(host, Value(e, f));
    if Has(e, f) then [PutU32(host, AttrCode(f), Htonl(host, Value(e, f)))] else []
  }

  /** `nftnl_expr_fwd_build`: the attributes appended to the message. */
  function Build(host: Endian, e: FwdExpr): (r: seq<Attr>)
    ensures |r| <= 3
    ensures forall i :: 0 <= i < |r| ==> ValidU32(r[i]) && Recognised(r[i])
  {
    Emit(host, e, SregDev) + Emit(host, e, SregAddr) + Emit(host, e, Nfproto)
  }

  // ---------------------------------------------------------------------
  // Descriptor

  /** The parts of `struct expr_ops` that are data rather than operations. */
  datatype ExprOps = ExprOps(name: string, allocLen: nat, maxAttr: nat)

  /** `expr_ops_fwd`: three four-byte fields, and the highest library-side
      code is one below `__NFTNL_EXPR_FWD_MAX`. */
  const FwdOps: ExprOps := ExprOps("fwd", 3 * 4, NftnlExprFwdMax as nat - 1)
}
