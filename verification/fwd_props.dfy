/** Properties of the fwd expression: each operation is related to an
    independent reference description, and build and parse to each other. */
module FwdProps {
  import opened Common
  import opened ByteOrder
  import opened Netlink
  import opened Fwd

  // ---------------------------------------------------------------------
  // Reference descriptions

  /** The fields of `fs` whose presence bit is set in `e`, in the order of `fs`. */
  function Present(e: FwdExpr, fs: seq<Field>): seq<Field>
  {
    if |fs| == 0 then []
    else (if Has(e, fs[0]) then [fs[0]] else []) + Present(e, fs[1..])
  }

  /** The present fields of `e` in the fixed order device, address, protocol. */
  function PresentFields(e: FwdExpr): seq<Field>
  {
    Present(e, FieldOrder)
  }

  /** The attribute that carries field `f` of `e` on the wire: the field's
      code and its value in network byte order. */
  function WireAttr(e: FwdExpr, f: Field): Attr
  {
    Attr(AttrCode(f), BE32(Value(e, f)))
  }

  function WireAttrs(e: FwdExpr, fs: seq<Field>): (r: seq<Attr>)
    ensures |r| == |fs|
    ensures forall i :: 0 <= i < |fs| ==> r[i] == WireAttr(e, fs[i])
  {
    if |fs| == 0 then [] else [WireAttr(e, fs[0])] + WireAttrs(e, fs[1..])
  }

  /** The last attribute of `attrs` whose type code is `t`, if any. */
  function LastOfType(attrs: seq<Attr>, t: nat): (r: Option<Attr>)
    decreases |attrs|
  {
    if |attrs| == 0 then None
    else if TypeOf(attrs[|attrs| - 1]) == t then Some(attrs[|attrs| - 1])
    else LastOfType(attrs[..|attrs| - 1], t)
  }

  /** Some attribute would make the callback abort. */
  predicate AnyBreaks(attrs: seq<Attr>)
  {
    exists i :: 0 <= i < |attrs| && Breaks(attrs[i])
  }

  /** The table a successful parse leaves: for each in-range code, the last
      attribute carrying it. */
  function LastTable(attrs: seq<Attr>): Table
  {
    map t: nat | t <= NftaFwdMax && LastOfType(attrs, t).Some? :: LastOfType(attrs, t).value
  }

  // ---------------------------------------------------------------------
  // Descriptor

  /** The descriptor names the kind "fwd", sizes its storage for the three
      four-byte fields, and its highest attribute is the last field code: every
      field code lies in 1..maxAttr and the code after it selects nothing. */
  lemma FwdOpsDescriptor()
    ensures FwdOps.name == "fwd"
    ensures FwdOps.allocLen == 4 * |FieldOrder|
    ensures forall f :: 1 <= FieldCode(f) as int <= FwdOps.maxAttr
    ensures exists f :: FieldCode(f) as int == FwdOps.maxAttr
    ensures FieldOfCode(FwdOps.maxAttr + 1).None? && FieldOfCode(0).None?
    ensures forall f :: f in FieldOrder
  {
    assert FieldCode(Nfproto) as int == FwdOps.maxAttr;
    forall f ensures f in FieldOrder {
      match f
      case SregDev => assert FieldOrder[0] == f;
      case SregAddr => assert FieldOrder[1] == f;
      case Nfproto => assert FieldOrder[2] == f;
    }
  }

  // ---------------------------------------------------------------------
  // set / get

  /** A recognised set followed by get of the same code yields the four bytes
      written and a length of 4. */
  lemma KindSetThenGet(host: Endian, e: FwdExpr, typ: uint16, data: seq<uint8>, dataLen: uint32)
    requires FieldOfCode(typ).Some? && |data| >= 4
    ensures KindGet(host, KindSet(host, e, typ, data, dataLen).expr, typ) == Some(Got(data[..4], 4))
  {
    var f := FieldOfCode(typ).value;
    var e' := KindSet(host, e, typ, data, dataLen).expr;
    HostBytesRoundTrip(host, data[..4]);
    assert HostBytes(host, Value(e', f)) == data[..4];
  }

  /** Writing back what get returned changes nothing. */
  lemma KindGetThenSet(host: Endian, e: FwdExpr, typ: uint16)
    requires FieldOfCode(typ).Some?
    ensures KindSet(host, e, typ, KindGet(host, e, typ).value.data, 4).expr == e
  {
    var f := FieldOfCode(typ).value;
    var got := KindGet(host, e, typ).value;
    var e' := KindSet(host, e, typ, got.data, 4).expr;
    HostRoundTrip(host, Value(e, f));
    assert got.data == HostBytes(host, Value(e, f));
    assert got.data[..4] == got.data;
    HostRoundTrip(host, Value(e', f));
    assert Value(e', f) == Value(e, f);
    assert forall g :: Value(e', g) == Value(e, g);
  }

  /** The kind setter's outcome does not depend on `data_len`. */
  lemma KindSetIgnoresLength(host: Endian, e: FwdExpr, typ: uint16, data: seq<uint8>, len1: uint32, len2: uint32)
    requires FieldOfCode(typ).Some? ==> |data| >= 4
    ensures KindSet(host, e, typ, data, len1) == KindSet(host, e, typ, data, len2)
  {
  }

  /** Under the generic-setter assumption: after setting `f`, the generic
      getter returns the bytes written; every other field keeps its presence
      and value. */
  lemma GenericSetThenGet(host: Endian, e: FwdExpr, f: Field, data: seq<uint8>, dataLen: uint32)
    requires |data| >= 4
    ensures GenericGet(host, GenericSet(host, e, f, data, dataLen), f) == Some(Got(data[..4], 4))
    ensures forall g :: g != f ==>
              && (Has(GenericSet(host, e, f, data, dataLen), g) <==> Has(e, g))
              && Value(GenericSet(host, e, f, data, dataLen), g) == Value(e, g)
  {
    var e' := GenericSet(host, e, f, data, dataLen);
    assert FieldOfCode(FieldCode(f)) == Some(f);
    var k := KindSet(host, e, FieldCode(f), data, dataLen).expr;
    assert KindGet(host, e', FieldCode(f)) == KindGet(host, k, FieldCode(f));
    KindSetThenGet(host, e, FieldCode(f), data, dataLen);
  }

  // ---------------------------------------------------------------------
  // Build

  lemma {:induction false} PresentSpec(e: FwdExpr, fs: seq<Field>)
    ensures forall f :: f in Present(e, fs) <==> f in fs && Has(e, f)
    ensures |Present(e, fs)| <= |fs|
  {
    if |fs| > 0 {
      PresentSpec(e, fs[1..]);
      assert fs == [fs[0]] + fs[1..];
    }
  }

  lemma PresentFieldsUnfold(e: FwdExpr)
    ensures PresentFields(e) == (if Has(e, SregDev) then [SregDev] else [])
                              + (if Has(e, SregAddr) then [SregAddr] else [])
                              + (if Has(e, Nfproto) then [Nfproto] else [])
  {
    var tail1 := [SregAddr, Nfproto];
    var tail2 := [Nfproto];
    assert FieldOrder[1..] == tail1 && tail1[1..] == tail2 && tail2[1..] == [];
    assert Present(e, tail2) == (if Has(e, Nfproto) then [Nfproto] else []) + Present(e, []);
    assert Present(e, tail1) == (if Has(e, SregAddr) then [SregAddr] else []) + Present(e, tail2);
  }

  /** The present fields are exactly the fields whose bit is set, listed in
      strictly increasing attribute code: device, then address, then protocol. */
  lemma PresentFieldsSpec(e: FwdExpr)
    ensures forall f :: f in PresentFields(e) <==> Has(e, f)
    ensures forall i, j :: 0 <= i < j < |PresentFields(e)| ==>
              AttrCode(PresentFields(e)[i]) < AttrCode(PresentFields(e)[j])
  {
    PresentSpec(e, FieldOrder);
    PresentFieldsUnfold(e);
  }

  /** One emitted attribute per present field, in the fixed order, each
      carrying the field's value in network byte order, on any host. */
  lemma BuildEmitsPresentFields(host: Endian, e: FwdExpr)
    ensures Build(host, e) == WireAttrs(e, PresentFields(e))
  {
    WireBytesHostIndependent(host, e.sregDev);
    WireBytesHostIndependent(host, e.sregAddr);
    WireBytesHostIndependent(host, e.nfproto);
    PresentFieldsUnfold(e);
    forall f ensures Emit(host, e, f) == if Has(e, f) then [WireAttr(e, f)] else [] {
      WireBytesHostIndependent(host, Value(e, f));
    }
  }

  /** The built attributes carry each present field, nothing for an absent
      one, in strictly increasing code order (so no code twice). */
  lemma BuildShape(host: Endian, e: FwdExpr)
    ensures forall f :: WireAttr(e, f) in Build(host, e) <==> Has(e, f)
    ensures forall i, j :: 0 <= i < j < |Build(host, e)| ==> TypeOf(Build(host, e)[i]) < TypeOf(Build(host, e)[j])
  {
    forall f ensures WireAttr(e, f) in Build(host, e) <==> Has(e, f) {
      BuildContains(host, e, f);
    }
    BuildOrdered(host, e);
  }

  lemma BuildContains(host: Endian, e: FwdExpr, f: Field)
    ensures WireAttr(e, f) in Build(host, e) <==> Has(e, f)
  {
    var ed := Emit(host, e, SregDev);
    var ea := Emit(host, e, SregAddr);
    var en := Emit(host, e, Nfproto);
    assert Build(host, e) == ed + ea + en;
    assert WireAttr(e, f) in ed + ea + en <==> WireAttr(e, f) in ed || WireAttr(e, f) in ea || WireAttr(e, f) in en;
    forall g | g != f ensures WireAttr(e, f) !in Emit(host, e, g) {
      assert WireAttr(e, g).typ != WireAttr(e, f).typ;
    }
  }

  lemma BuildOrdered(host: Endian, e: FwdExpr)
    ensures forall i, j :: 0 <= i < j < |Build(host, e)| ==> TypeOf(Build(host, e)[i]) < TypeOf(Build(host, e)[j])
  {
    BuildEmitsPresentFields(host, e);
    PresentFieldsSpec(e);
    var pf := PresentFields(e);
    var r := Build(host, e);
    forall i | 0 <= i < |r| ensures TypeOf(r[i]) == AttrCode(pf[i]) as nat {
      WireAttrType(e, pf[i]);
    }
  }

  /** A field's wire attribute carries the field's code and no flag bit. */
  lemma WireAttrType(e: FwdExpr, f: Field)
    ensures TypeOf(WireAttr(e, f)) == AttrCode(f) as nat
  {
  }

  /** The wire bytes do not depend on the host's byte order. */
  lemma BuildHostIndependent(e: FwdExpr)
    ensures Build(BigEndian, e) == Build(LittleEndian, e)
  {
    BuildEmitsPresentFields(BigEndian, e);
    BuildEmitsPresentFields(LittleEndian, e);
  }

  /** An expression without fields builds no attribute, and only then. */
  lemma BuildEmptyIffNoField(host: Endian, e: FwdExpr)
    ensures Build(host, e) == [] <==> e.flags * FwdMask == {}
  {
    NoFieldIffMaskClear(e);
    var ed := Emit(host, e, SregDev);
    var ea := Emit(host, e, SregAddr);
    var en := Emit(host, e, Nfproto);
    assert Build(host, e) == ed + ea + en;
    assert |Build(host, e)| == |ed| + |ea| + |en|;
  }

  // ---------------------------------------------------------------------
  // Attribute validation

  /** A later attribute of the same type replaces an earlier one. */
  lemma CbLaterDuplicateWins(tb: Table, a: Attr, b: Attr)
    requires WellFormedTable(tb)
    requires TypeOf(a) == TypeOf(b) && !Breaks(a) && !Breaks(b)
    ensures Cb(tb, a).Ok? && Cb(Cb(tb, a).value, b) == Cb(tb, b)
  {
    if TypeValid(a, NftaFwdMax) {
      assert tb[TypeOf(a) := a][TypeOf(b) := b] == tb[TypeOf(b) := b];
    }
  }

  lemma {:induction false} LastOfTypeSpec(attrs: seq<Attr>, t: nat)
    ensures LastOfType(attrs, t).Some? <==> exists i :: 0 <= i < |attrs| && TypeOf(attrs[i]) == t
    ensures LastOfType(attrs, t).Some? ==> TypeOf(LastOfType(attrs, t).value) == t
    ensures LastOfType(attrs, t).Some? ==> LastOfType(attrs, t).value in attrs
    ensures LastOfType(attrs, t).Some? ==>
              exists i :: 0 <= i < |attrs| && attrs[i] == LastOfType(attrs, t).value
                          && forall j :: i < j < |attrs| ==> TypeOf(attrs[j]) != t
    decreases |attrs|
  {
    if |attrs| > 0 {
      var p := attrs[..|attrs| - 1];
      LastOfTypeSpec(p, t);
      if TypeOf(attrs[|attrs| - 1]) == t {
        assert attrs[|attrs| - 1] == LastOfType(attrs, t).value;
      } else if LastOfType(p, t).Some? {
        var i :| 0 <= i < |p| && p[i] == LastOfType(p, t).value
                 && forall j :: i < j < |p| ==> TypeOf(p[j]) != t;
        assert attrs[i] == p[i];
        forall j | i < j < |attrs| ensures TypeOf(attrs[j]) != t {
          if j < |p| { assert attrs[j] == p[j]; }
        }
      }
      if TypeOf(attrs[|attrs| - 1]) != t {
        if i :| 0 <= i < |attrs| && TypeOf(attrs[i]) == t {
          assert i < |attrs| - 1;
          assert p[i] == attrs[i];
        }
        if LastOfType(p, t).Some? {
          var i :| 0 <= i < |p| && TypeOf(p[i]) == t;
          assert attrs[i] == p[i];
          assert LastOfType(p, t).value in p;
        }
      }
    }
  }

  /** `mnl_attr_parse_nested` with the fwd callback aborts exactly when some
      recognised attribute is not a valid u32; otherwise it keeps, for every
      in-range code, the last attribute with that code, and nothing else. */
  lemma {:induction false} ParseNestedSpec(attrs: seq<Attr>)
    ensures ParseNested(attrs) == if AnyBreaks(attrs) then Err(AbiBreakage) else Ok(LastTable(attrs))
    decreases |attrs|
  {
    if |attrs| == 0 {
      assert LastTable(attrs) == map[];
    } else {
      var p := attrs[..|attrs| - 1];
      var a := attrs[|attrs| - 1];
      ParseNestedSpec(p);
      if AnyBreaks(p) {
        var i :| 0 <= i < |p| && Breaks(p[i]);
        assert attrs[i] == p[i];
      } else if Breaks(a) {
        assert AnyBreaks(attrs);
      } else {
        assert !AnyBreaks(attrs) by {
          forall i | 0 <= i < |attrs| ensures !Breaks(attrs[i]) {
            if i < |p| { assert attrs[i] == p[i]; }
          }
        }
        var tb := LastTable(p);
        if TypeValid(a, NftaFwdMax) {
          assert LastTable(attrs) == tb[TypeOf(a) := a];
        } else {
          assert LastTable(attrs) == tb;
        }
      }
    }
  }

  // ---------------------------------------------------------------------
  // Parse

  /** What parse does to each field: a field with an attribute takes the
      big-endian value of the last such attribute and becomes present; a
      field without one keeps its value and presence. */
  predicate FieldParsed(e: FwdExpr, r: FwdExpr, attrs: seq<Attr>, f: Field)
  {
    match LastOfType(attrs, AttrCode(f))
    case Some(a) => Has(r, f) && |a.payload| == 4 && Value(r, f) == FromBE32(a.payload)
    case None => (Has(r, f) <==> Has(e, f)) && Value(r, f) == Value(e, f)
  }

  /** `nftnl_expr_fwd_parse` fails exactly when some recognised attribute is
      malformed. On success each field is updated as `FieldParsed` says, no
      flag outside the kind's mask changes, and flags only grow. */
  lemma ParseSpec(host: Endian, e: FwdExpr, attrs: seq<Attr>)
    ensures Parse(host, e, attrs).Err? <==> AnyBreaks(attrs)
    ensures Parse(host, e, attrs).Ok? ==>
              var r := Parse(host, e, attrs).value;
              && (forall f :: FieldParsed(e, r, attrs, f))
              && r.flags - FwdMask == e.flags - FwdMask
              && e.flags <= r.flags
  {
    ParseNestedSpec(attrs);
    if !AnyBreaks(attrs) {
      var tb := LastTable(attrs);
      var e1 := Absorb(host, e, tb, SregDev);
      var e2 := Absorb(host, e1, tb, SregAddr);
      var r := Absorb(host, e2, tb, Nfproto);
      assert Parse(host, e, attrs) == Ok(r);
      forall f ensures FieldParsed(e, r, attrs, f) {
        var code := AttrCode(f);
        LastOfTypeSpec(attrs, code);
        if code in tb {
          WireValueHostIndependent(host, tb[code].payload);
        }
      }
    }
  }

  // ---------------------------------------------------------------------
  // Round trips

  lemma {:induction false} LastOfTypeWire(e: FwdExpr, fs: seq<Field>, f: Field)
    requires forall i, j :: 0 <= i < j < |fs| ==> fs[i] != fs[j]
    ensures LastOfType(WireAttrs(e, fs), AttrCode(f)) == if f in fs then Some(WireAttr(e, f)) else None
    decreases |fs|
  {
    if |fs| > 0 {
      var init := fs[..|fs| - 1];
      assert WireAttrs(e, fs)[..|fs| - 1] == WireAttrs(e, init);
      LastOfTypeWire(e, init, f);
      assert fs == init + [fs[|fs| - 1]];
      if fs[|fs| - 1] != f {
        assert TypeOf(WireAttr(e, fs[|fs| - 1])) != AttrCode(f);
      }
    }
  }

  /** In a built attribute list the last attribute carrying a field's code is
      that field's wire attribute if the field is present, and there is none
      otherwise. */
  lemma LastOfTypeInBuild(host: Endian, e: FwdExpr, f: Field)
    ensures LastOfType(Build(host, e), AttrCode(f)) == if Has(e, f) then Some(WireAttr(e, f)) else None
  {
    BuildEmitsPresentFields(host, e);
    PresentFieldsSpec(e);
    LastOfTypeWire(e, PresentFields(e), f);
  }

  /** Building `e` and parsing the result into any expression `t` succeeds,
      copies every present field of `e` (value and presence bit) into `t`, and
      leaves everything else of `t` as it was. */
  lemma BuildThenParse(host: Endian, e: FwdExpr, t: FwdExpr)
    ensures Parse(host, t, Build(host, e)).Ok?
    ensures var r := Parse(host, t, Build(host, e)).value;
            && r.flags == t.flags + e.flags * FwdMask
            && forall f :: Value(r, f) == if Has(e, f) then Value(e, f) else Value(t, f)
  {
    var attrs := Build(host, e);
    assert !AnyBreaks(attrs);
    ParseSpec(host, t, attrs);
    var r := Parse(host, t, attrs).value;
    forall f ensures (Has(r, f) <==> Has(t, f) || Has(e, f)) && Value(r, f) == if Has(e, f) then Value(e, f) else Value(t, f) {
      LastOfTypeInBuild(host, e, f);
      assert FieldParsed(t, r, attrs, f);
      BE32RoundTrip(Value(e, f));
    }
    forall k | k in FwdMask ensures k in r.flags <==> k in t.flags + e.flags * FwdMask {
      var f := if k == 1 then SregDev else if k == 2 then SregAddr else Nfproto;
      assert Bit(f) == k;
    }
  }

  /** Parsing the output of build into a fresh expression reproduces exactly
      the present fields of `e`: the same presence bits and the same values. */
  lemma RoundTrip(host: Endian, e: FwdExpr)
    ensures Parse(host, Fresh, Build(host, e)) == Ok(Restrict(e))
  {
    BuildThenParse(host, e, Fresh);
    var r := Parse(host, Fresh, Build(host, e)).value;
    assert r.flags == Restrict(e).flags;
    assert Value(r, SregDev) == Value(Restrict(e), SregDev);
    assert Value(r, SregAddr) == Value(Restrict(e), SregAddr);
    assert Value(r, Nfproto) == Value(Restrict(e), Nfproto);
  }

  /** The attributes a parse keeps, as build re-emits them: for each field in
      the fixed order, the payload of the last attribute carrying its code,
      under the bare code. */
  function Kept(attrs: seq<Attr>, fs: seq<Field>): seq<Attr>
  {
    if |fs| == 0 then []
    else
      (match LastOfType(attrs, AttrCode(fs[0]))
       case Some(a) => [Attr(AttrCode(fs[0]), a.payload)]
       case None => [])
      + Kept(attrs, fs[1..])
  }

  lemma KeptUnfold(attrs: seq<Attr>)
    ensures Kept(attrs, FieldOrder)
            == Kept(attrs, [SregDev]) + Kept(attrs, [SregAddr]) + Kept(attrs, [Nfproto])
  {
    var tail1 := [SregAddr, Nfproto];
    var tail2 := [Nfproto];
    assert FieldOrder[1..] == tail1 && tail1[1..] == tail2 && tail2[1..] == [];
    assert [SregDev][1..] == [] && [SregAddr][1..] == [];
  }

  /** Re-emitting one parsed field gives the kept attribute for it. */
  lemma EmitParsedField(host: Endian, t: FwdExpr, r: FwdExpr, attrs: seq<Attr>, f: Field)
    requires FieldParsed(t, r, attrs, f) && !Has(t, f)
    ensures Emit(host, r, f) == Kept(attrs, [f])
  {
    assert [f][1..] == [];
    match LastOfType(attrs, AttrCode(f))
    case Some(a) =>
      FromBE32RoundTrip(a.payload);
      WireBytesHostIndependent(host, Value(r, f));
    case None =>
  }

  /** Parsing a message into an expression with none of the kind's bits set
      (a fresh one, say) and building it again gives back, in canonical order,
      the last valid attribute of each field, with duplicates, unrecognised
      attributes and type flag bits dropped. */
  lemma ParseThenBuild(host: Endian, t: FwdExpr, attrs: seq<Attr>)
    requires !AnyBreaks(attrs)
    requires t.flags * FwdMask == {}
    ensures Parse(host, t, attrs).Ok?
    ensures Build(host, Parse(host, t, attrs).value) == Kept(attrs, FieldOrder)
  {
    ParseSpec(host, t, attrs);
    var r := Parse(host, t, attrs).value;
    forall f ensures !Has(t, f) {
      assert Bit(f) in FwdMask;
      assert Bit(f) !in t.flags * FwdMask;
    }
    KeptUnfold(attrs);
    EmitParsedField(host, t, r, attrs, SregDev);
    EmitParsedField(host, t, r, attrs, SregAddr);
    EmitParsedField(host, t, r, attrs, Nfproto);
  }

  // ---------------------------------------------------------------------
  // Forward compatibility

  /** Removing an attribute of another type does not change which attribute
      is the last of type `t`. */
  lemma {:induction false} LastOfTypeSkips(pre: seq<Attr>, a: Attr, post: seq<Attr>, t: nat)
    requires TypeOf(a) != t
    ensures LastOfType(pre + [a] + post, t) == LastOfType(pre + post, t)
    decreases |post|
  {
    if |post| == 0 {
      assert pre + [a] + post == pre + [a];
      assert (pre + [a])[..|pre|] == pre;
      assert pre + post == pre;
    } else {
      var init := post[..|post| - 1];
      LastOfTypeSkips(pre, a, init, t);
      assert (pre + [a] + post)[..|pre + [a] + post| - 1] == pre + [a] + init;
      assert (pre + post)[..|pre + post| - 1] == pre + init;
    }
  }

  /** Absorbing a field reads the table only under that field's code. */
  lemma AbsorbReadsOwnCode(host: Endian, e: FwdExpr, tb1: Table, tb2: Table, f: Field)
    requires WellFormedTable(tb1) && WellFormedTable(tb2)
    requires AttrCode(f) in tb1 <==> AttrCode(f) in tb2
    requires AttrCode(f) in tb1 ==> tb1[AttrCode(f)] == tb2[AttrCode(f)]
    ensures Absorb(host, e, tb1, f) == Absorb(host, e, tb2, f)
  {
  }

  /** An attribute whose type code names no field, whether above NFTA_FWD_MAX
      or the reserved code 0, has no effect on the outcome of a parse. */
  lemma ParseIgnoresUnrecognised(host: Endian, e: FwdExpr, pre: seq<Attr>, a: Attr, post: seq<Attr>)
    requires !Recognised(a)
    ensures Parse(host, e, pre + [a] + post) == Parse(host, e, pre + post)
  {
    var x := pre + [a] + post;
    var y := pre + post;
    ParseNestedSpec(x);
    ParseNestedSpec(y);
    assert AnyBreaks(x) <==> AnyBreaks(y) by {
      if i :| 0 <= i < |x| && Breaks(x[i]) {
        if i < |pre| { assert y[i] == x[i]; }
        else if i > |pre| { assert y[i - 1] == x[i]; }
      }
      if i :| 0 <= i < |y| && Breaks(y[i]) {
        if i < |pre| { assert x[i] == y[i]; }
        else { assert x[i + 1] == y[i]; }
      }
    }
    if !AnyBreaks(x) {
      var tx := LastTable(x);
      var ty := LastTable(y);
      forall f ensures AttrCode(f) in tx <==> AttrCode(f) in ty
                ensures AttrCode(f) in tx ==> tx[AttrCode(f)] == ty[AttrCode(f)] {
        LastOfTypeSkips(pre, a, post, AttrCode(f));
      }
      var x1 := Absorb(host, e, tx, SregDev);
      AbsorbReadsOwnCode(host, e, tx, ty, SregDev);
      var x2 := Absorb(host, x1, tx, SregAddr);
      AbsorbReadsOwnCode(host, x1, tx, ty, SregAddr);
      AbsorbReadsOwnCode(host, x2, tx, ty, Nfproto);
    }
  }
}
