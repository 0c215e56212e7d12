/** Worked examples over the fwd model, and the agreement between its text and
    wire forms. */
module FwdScenario {
  import opened Common
  import opened ByteOrder
  import opened Fwd
  import opened FwdProps
  import opened FwdRender

  /** An expression with only the device register and the protocol set,
      through the generic setter, from the host-order bytes of 1 and 2. */
  function DevAndProto(host: Endian): FwdExpr
  {
    var e1 := GenericSet(host, Fresh, SregDev, HostBytes(host, 1), 4);
    GenericSet(host, e1, Nfproto, HostBytes(host, 2), 4)
  }

  /** The generic setter marks exactly the two fields set and stores 1 and 2. */
  lemma DevAndProtoValue(host: Endian)
    ensures DevAndProto(host) == FwdExpr({1, 3}, 1, 0, 2)
  {
    HostRoundTrip(host, 1);
    HostRoundTrip(host, 2);
    assert HostBytes(host, 1)[..4] == HostBytes(host, 1);
    assert HostBytes(host, 2)[..4] == HostBytes(host, 2);
  }

  lemma RenderDevAndProto()
    ensures Render(FwdExpr({1, 3}, 1, 0, 2)) == "sreg_dev 1 nfproto 2 "
  {
    var e := FwdExpr({1, 3}, 1, 0, 2);
    assert Has(e, SregDev) && !Has(e, SregAddr) && Has(e, Nfproto);
    assert Decimal(1) == "1" && Decimal(2) == "2";
  }

  /** It renders as "sreg_dev 1 nfproto 2 ", with the address field absent,
      and building then parsing it into a fresh expression reproduces exactly
      those two fields and no other. */
  lemma DevAndProtoScenario(host: Endian)
    ensures Render(DevAndProto(host)) == "sreg_dev 1 nfproto 2 "
    ensures Parse(host, Fresh, Build(host, DevAndProto(host))) == Ok(FwdExpr({1, 3}, 1, 0, 2))
  {
    DevAndProtoValue(host);
    RenderDevAndProto();
    var e := FwdExpr({1, 3}, 1, 0, 2);
    RoundTrip(host, e);
    assert e.flags * FwdMask == e.flags;
    assert Restrict(e) == e;
  }

  /** An expression with no field renders as the empty text and builds no
      attribute. */
  lemma EmptyScenario(host: Endian)
    ensures Render(Fresh) == ""
    ensures Build(host, Fresh) == []
  {
    BuildEmptyIffNoField(host, Fresh);
  }

  /** The text and the wire form carry the same information: reading back the
      rendered text gives what parsing the built attributes gives. */
  lemma RenderAgreesWithWire(host: Endian, e: FwdExpr)
    ensures Unrender(Render(e)).Some?
    ensures Parse(host, Fresh, Build(host, e)) == Ok(Unrender(Render(e)).value)
  {
    UnrenderRender(e);
    RoundTrip(host, e);
  }
}
