/** Text output of the fwd expression (`nftnl_expr_fwd_snprintf`), modelled as
    the complete string, with a reader for that text as its partner. */
module FwdRender {
  import opened Common
  import opened Fwd
  import opened FwdProps

  // ---------------------------------------------------------------------
  // "%u"

  predicate IsDigit(c: char)
  {
    '0' <= c <= '9'
  }

  predicate AllDigits(s: string)
  {
    forall i :: 0 <= i < |s| ==> IsDigit(s[i])
  }

  function DigitChar(d: nat): (c: char)
    requires d < 10
    ensures IsDigit(c)
  {
    (48 + d) as char
  }

  /** `%u`: the decimal digits of `n`, most significant first, without
      leading zeros. */
  function Decimal(n: nat): (s: string)
    ensures |s| >= 1 && AllDigits(s)
    ensures n > 0 ==> s[0] != '0'
    ensures |s| > 1 ==> s[0] != '0'
    decreases n
  {
    if n < 10 then [DigitChar(n)] else Decimal(n / 10) + [DigitChar(n % 10)]
  }

  /** The number a string of decimal digits denotes. */
  function DecimalValue(s: string): nat
    requires AllDigits(s)
    decreases |s|
  {
    if |s| == 0 then 0
    else DecimalValue(s[..|s| - 1]) * 10 + (s[|s| - 1] as int - '0' as int)
  }

  lemma {:induction false} DecimalRoundTrip(n: nat)
    ensures DecimalValue(Decimal(n)) == n
    decreases n
  {
    if n >= 10 {
      var s := Decimal(n);
      DecimalRoundTrip(n / 10);
      assert s[..|s| - 1] == Decimal(n / 10);
    }
  }

  // ---------------------------------------------------------------------
  // Render

  /** The label printed before a field's value. */
  function Key(f: Field): string
  {
    match f
    case SregDev => "sreg_dev"
    case SregAddr => "sreg_addr"
    case Nfproto => "nfproto"
  }

  /** The text printed for field `f`: `"<key> %u "`. */
  function FieldText(e: FwdExpr, f: Field): string
  {
    Key(f) + " " + Decimal(Value(e, f)) + " "
  }

  /** The fragment one `if (e->flags & ...)` block prints. */
  function Fragment(e: FwdExpr, f: Field): (s: string)
    ensures s == [] <==> !Has(e, f)
  {
    if Has(e, f) then FieldText(e, f) else ""
  }

  /** The texts of the fields `fs`, one after the other. */
  function Texts(e: FwdExpr, fs: seq<Field>): string
  {
    if |fs| == 0 then "" else FieldText(e, fs[0]) + Texts(e, fs[1..])
  }

  /** `nftnl_expr_fwd_snprintf` given room enough: the fragments of the
      present fields, device first, then address, then protocol. The text is
      empty exactly when no field is present, and otherwise ends in a space. */
  function Render(e: FwdExpr): (s: string)
    ensures s == [] <==> e.flags * FwdMask == {}
    ensures s != [] ==> s[|s| - 1] == ' '
  {
    NoFieldIffMaskClear(e);
    Fragment(e, SregDev) + Fragment(e, SregAddr) + Fragment(e, Nfproto)
  }

  // ---------------------------------------------------------------------
  // Reading rendered text back

  /** Index of the first space in `s`, or `|s|` if there is none. */
  function SpaceIndex(s: string): (i: nat)
    ensures i <= |s|
    ensures forall j :: 0 <= j < i ==> s[j] != ' '
    ensures i < |s| ==> s[i] == ' '
    decreases |s|
  {
    if |s| == 0 then 0
    else if s[0] == ' ' then 0
    else 1 + SpaceIndex(s[1..])
  }

  /** Splits text made of space-terminated words into those words. */
  function Words(s: string): Option<seq<string>>
    decreases |s|
  {
    if |s| == 0 then Some([])
    else
      var i := SpaceIndex(s);
      if i == |s| then None
      else
        match Words(s[i + 1..])
        case None => None
        case Some(rest) => Some([s[..i]] + rest)
  }

  function FieldOfKey(w: string): (r: Option<Field>)
    ensures r.Some? ==> Key(r.value) == w
  {
    if w == "sreg_dev" then Some(SregDev)
    else if w == "sreg_addr" then Some(SregAddr)
    else if w == "nfproto" then Some(Nfproto)
    else None
  }

  /** Reads `key value` pairs into `e`, setting each named field and its
      presence bit. */
  function FromWords(ws: seq<string>, e: FwdExpr): Option<FwdExpr>
    decreases |ws|
  {
    if |ws| == 0 then Some(e)
    else if |ws| == 1 then None
    else
      match FieldOfKey(ws[0])
      case None => None
      case Some(f) =>
        if |ws[1]| == 0 || !AllDigits(ws[1]) || DecimalValue(ws[1]) >= 0x1_0000_0000 then None
        else FromWords(ws[2..], WithValue(e, f, DecimalValue(ws[1])).(flags := e.flags + {Bit(f)}))
  }

  /** The expression a rendered text describes, read into a fresh one. */
  function Unrender(s: string): Option<FwdExpr>
  {
    match Words(s)
    case None => None
    case Some(ws) => FromWords(ws, Fresh)
  }

  lemma WordsCons(w: string, rest: string)
    requires NoSpace(w)
    ensures Words(w + " " + rest) == match Words(rest) case None => None case Some(ws) => Some([w] + ws)
  {
    var s := w + " " + rest;
    assert s[|w|] == ' ';
    assert forall j :: 0 <= j < |w| ==> s[j] == w[j];
    assert SpaceIndex(s) == |w|;
    assert s[..|w|] == w;
    assert s[|w| + 1..] == rest;
  }

  /** The words of one field's fragment. */
  function FragmentWords(e: FwdExpr, f: Field): seq<string>
  {
    if Has(e, f) then [Key(f), Decimal(Value(e, f))] else []
  }

  predicate NoSpace(w: string)
  {
    forall j :: 0 <= j < |w| ==> w[j] != ' '
  }

  lemma FragmentWordsHaveNoSpace(e: FwdExpr, f: Field)
    ensures NoSpace(Key(f))
    ensures NoSpace(Decimal(Value(e, f)))
  {
    var d := Decimal(Value(e, f));
    forall j | 0 <= j < |d| ensures d[j] != ' ' { assert IsDigit(d[j]); }
    match f
    case SregDev =>
    case SregAddr =>
    case Nfproto =>
  }

  lemma WordsOfFragment(e: FwdExpr, f: Field, rest: string)
    ensures Words(Fragment(e, f) + rest)
            == match Words(rest) case None => None case Some(ws) => Some(FragmentWords(e, f) + ws)
  {
    if Has(e, f) {
      var k := Key(f);
      var d := Decimal(Value(e, f));
      FragmentWordsHaveNoSpace(e, f);
      assert Fragment(e, f) + rest == k + " " + (d + " " + rest);
      WordsCons(k, d + " " + rest);
      WordsCons(d, rest);
      match Words(rest)
      case None =>
      case Some(ws) =>
        assert [k] + ([d] + ws) == [k, d] + ws;
    } else {
      assert Fragment(e, f) + rest == rest;
      match Words(rest)
      case None =>
      case Some(ws) =>
        assert FragmentWords(e, f) + ws == ws;
    }
  }

  /** Reading one field's words sets that field to its value in `e`. */
  lemma FromWordsFragment(e: FwdExpr, f: Field, acc: FwdExpr, ws: seq<string>)
    ensures FromWords(FragmentWords(e, f) + ws, acc)
            == FromWords(ws, if Has(e, f) then WithValue(acc, f, Value(e, f)).(flags := acc.flags + {Bit(f)}) else acc)
  {
    if Has(e, f) {
      var v := Value(e, f);
      var all := FragmentWords(e, f) + ws;
      DecimalRoundTrip(v);
      assert all[0] == Key(f) && all[1] == Decimal(v) && all[2..] == ws;
      assert FieldOfKey(Key(f)) == Some(f);
    } else {
      assert FragmentWords(e, f) + ws == ws;
    }
  }

  lemma WordsOfRender(e: FwdExpr)
    ensures Words(Render(e))
            == Some(FragmentWords(e, SregDev) + (FragmentWords(e, SregAddr) + FragmentWords(e, Nfproto)))
  {
    var fd := Fragment(e, SregDev);
    var fa := Fragment(e, SregAddr);
    var fn := Fragment(e, Nfproto);
    var wn := FragmentWords(e, Nfproto);
    assert Render(e) == fd + (fa + fn);
    WordsOfFragment(e, Nfproto, "");
    assert fn + "" == fn;
    assert wn + [] == wn;
    WordsOfFragment(e, SregAddr, fn);
    WordsOfFragment(e, SregDev, fa + fn);
  }

  /** The rendered text determines the present fields and their values: reading
      it back gives the expression restricted to its present fields. */
  lemma UnrenderRender(e: FwdExpr)
    ensures Unrender(Render(e)) == Some(Restrict(e))
  {
    WordsOfRender(e);
    var wd := FragmentWords(e, SregDev);
    var wa := FragmentWords(e, SregAddr);
    var wn := FragmentWords(e, Nfproto);
    var a1 := if Has(e, SregDev) then WithValue(Fresh, SregDev, e.sregDev).(flags := Fresh.flags + {Bit(SregDev)}) else Fresh;
    var a2 := if Has(e, SregAddr) then WithValue(a1, SregAddr, e.sregAddr).(flags := a1.flags + {Bit(SregAddr)}) else a1;
    var a3 := if Has(e, Nfproto) then WithValue(a2, Nfproto, e.nfproto).(flags := a2.flags + {Bit(Nfproto)}) else a2;
    FromWordsFragment(e, SregDev, Fresh, wa + wn);
    FromWordsFragment(e, SregAddr, a1, wn);
    assert wn == wn + [];
    FromWordsFragment(e, Nfproto, a2, []);
    assert FromWords([], a3) == Some(a3);
    assert a3.flags == e.flags * FwdMask by {
      forall k ensures k in a3.flags <==> k in e.flags * FwdMask {
        if k in e.flags * FwdMask {
          assert k == Bit(SregDev) || k == Bit(SregAddr) || k == Bit(Nfproto);
        }
      }
    }
  }

  /** Render prints exactly the present fields, in the same order in which
      build emits their attributes: device, then address, then protocol. */
  lemma RenderFollowsPresentFields(e: FwdExpr)
    ensures Render(e) == Texts(e, PresentFields(e))
  {
    var fd := if Has(e, SregDev) then [SregDev] else [];
    var fa := if Has(e, SregAddr) then [SregAddr] else [];
    var fn := if Has(e, Nfproto) then [Nfproto] else [];
    var td := Fragment(e, SregDev);
    var ta := Fragment(e, SregAddr);
    var tn := Fragment(e, Nfproto);
    PresentFieldsUnfold(e);
    assert PresentFields(e) == fd + (fa + fn);
    assert Render(e) == td + (ta + tn);
    FragmentThenTexts(e, Nfproto, []);
    assert fn + [] == fn && tn + "" == tn;
    FragmentThenTexts(e, SregAddr, fn);
    FragmentThenTexts(e, SregDev, fa + fn);
  }

  /** A field's fragment followed by the texts of `fs` is the texts of the
      field, if present, followed by `fs`. */
  lemma FragmentThenTexts(e: FwdExpr, f: Field, fs: seq<Field>)
    ensures Fragment(e, f) + Texts(e, fs) == Texts(e, (if Has(e, f) then [f] else []) + fs)
  {
    if Has(e, f) {
      assert ([f] + fs)[0] == f && ([f] + fs)[1..] == fs;
    } else {
      assert [] + fs == fs;
    }
  }
}
