# The nftables "fwd" expression, modelled in Dafny

This project models the "fwd" (forward) expression kind of libnftnl, the
library that builds and parses the netlink messages configuring the kernel's
nf_tables packet classifier. A fwd expression has three 32-bit fields: the
source register holding the output device (`sreg_dev`), the source register
holding the next-hop address (`sreg_addr`), and the protocol family
(`nfproto`). A presence bit in the generic expression's `flags` word records
whether each field has been set. The kind's operations are:

- set and get a field;
- validate netlink attributes (the callback);
- build the expression into attributes;
- parse attributes back into the expression;
- render it as text.

These operations, and the kind's descriptor, are modelled as pure functions
on immutable values. The lemmas relate the operations to each other and to
independent reference definitions.

Files and modules:

- `common.dfy` (`Common`): fixed-width integers, `Option`, `Result`.
- `byteorder.dfy` (`ByteOrder`): big- and little-endian byte layouts of a
  `uint32_t`, `htonl`/`ntohl` for a host of either byte order, and their
  round trips. The host's byte order is a parameter. The lemmas show that
  the bytes on the wire are big-endian whatever the host is.
- `netlink.dfy` (`Netlink`): an attribute is a 16-bit type word plus a
  payload. `TypeOf` strips the two flag bits (type mask 0x3fff). A payload
  is a valid u32 when it is exactly four bytes long. `PutU32`/`GetU32` copy
  a host-order value into a payload and read it back.
- `fwd.dfy` (`Fwd`): the expression record, presence bits, the kind's
  set/get, the attribute callback, nested-attribute parsing, parse, build
  and the descriptor.
- `fwd_props.dfy` (`FwdProps`): reference definitions and lemmas.
  - Reference definitions: the present fields in order, the wire attribute
    of a field, and the last attribute of each type.
  - Lemmas about set/get, build, parse and the descriptor.
  - Round trips in both directions.
  - Forward compatibility: unrecognised attributes do not change a parse.
- `fwd_render.dfy` (`FwdRender`): `%u` formatting and the rendered text.
  `Unrender` reads that text back and is the partner of `Render`.
- `scenario.dfy` (`FwdScenario`): the device-and-protocol example, the empty
  expression, and a lemma that the text form and the wire form agree.
- `batch.dfy` (`Batch`): the sequence numbers that the example client stamps
  on BEGIN, NEWRULE and END.

The constants come from the public headers of libnftnl and of Linux nf_tables.
Those headers are not part of this model.

- Library-side field codes: `NFTNL_EXPR_FWD_SREG_DEV` = 1, `_SREG_ADDR` = 2,
  `_NFPROTO` = 3, and `__NFTNL_EXPR_FWD_MAX` = 4. So the descriptor's
  `nftnl_max_attr` is 3, and the presence bits are `1 << 1`, `1 << 2` and
  `1 << 3`.
- Wire codes: `NFTA_FWD_SREG_DEV` = 1, `_SREG_ADDR` = 2, `_NFPROTO` = 3, and
  `NFTA_FWD_MAX` = 3. Code 0 is the reserved `NFTA_FWD_UNSPEC`.

The `flags` word is modelled as the set of positions of its one bits:
`flags |= 1 << k` adds `k` to the set, and `flags & (1 << k)` tests
membership. A parse keeps any generic bits outside the kind's three positions.

Points where the code may surprise a reader, all modelled as the code has them:

- The kind's setter does not check `data_len`, does not set a presence bit
  and always returns 0. It does not fail with a length error.
- The callback ignores attribute codes above `NFTA_FWD_MAX`; it does not
  reject them. It also stores the reserved code 0 without validating it.
- A recognised attribute whose width is wrong makes the callback call
  `abi_breakage()`, which aborts the process. Here it is the error value
  `AbiBreakage`.
- A parse writes the fields directly; it does not go through the setter.
- A round trip reproduces only the kind's presence bits. Other bits of the
  `flags` word are not carried on the wire.
- The nested parse returns -1 only if the callback returns an error code.
  `nftnl_expr_fwd_cb` never does that, so the `return -1` in
  `nftnl_expr_fwd_parse` cannot be reached. The model's parse fails only
  with `AbiBreakage`.

Two labelled assumptions cover generic code that is not part of this model:

- `GenericSet`: the generic setter calls the kind's setter and then sets the
  field's presence bit.
- `GenericGet`: the generic getter answers NULL when the bit is clear.

`Fresh` is a third assumption about the generic allocator: a new expression
has zeroed storage and no flag set. Only `FwdProps.RoundTrip`,
`FwdScenario.RenderAgreesWithWire` and the other scenarios rely on it.
`FwdProps.BuildThenParse` holds for any target expression, whatever bits the
allocator sets. `FwdProps.ParseThenBuild` holds for any target in which none
of the kind's three bits is set.

## Model

| member | source | states |
|---|---|---|
| ByteOrder.BE32RoundTrip | src/expr/fwd.c:94-111 | decoding the four big-endian bytes of any u32 gives that value back |
| ByteOrder.FromBE32RoundTrip | src/expr/fwd.c:111-119 | any four bytes are the big-endian encoding of their decoded value, so the decoding is injective |
| ByteOrder.HostBytesRoundTrip | src/expr/fwd.c:36-62 | the value a host reads from four bytes, stored again in host order, is the same four bytes, on either byte order |
| ByteOrder.NtohlHtonl | src/expr/fwd.c:94-119 | `ntohl(htonl(v)) == v` on a host of either byte order |
| ByteOrder.WireBytesHostIndependent | src/expr/fwd.c:93-98 | storing `htonl(v)` in host memory writes the big-endian bytes of `v` whichever byte order the host has |
| ByteOrder.WireValueHostIndependent | src/expr/fwd.c:110-121 | `ntohl` of four wire bytes read in host order is their big-endian value whichever byte order the host has |
| ByteOrder.Htonl | src/expr/fwd.c:94 | whatever the host's byte order, the host stores `htonl(v)` as the big-endian bytes of `v` |
| ByteOrder.HtonlSwapsBytes | src/expr/fwd.c:94 | `htonl` is the identity on a big-endian host and reverses the four bytes of its argument on a little-endian one |
| ByteOrder.Ntohl | src/expr/fwd.c:111 | `ntohl` undoes `htonl`, and reads the host bytes of its argument as a big-endian number |
| Netlink.TypeOf | src/expr/fwd.c:70 | the type code is the type word with the two flag bits (0x4000, 0x8000) stripped: it lies below 0x4000 and differs from the word only by those bits |
| Netlink.PutU32 | src/expr/fwd.c:94 | the attribute has the given type, a four-byte payload, and that payload read in host order is the value put |
| Netlink.GetU32 | src/expr/fwd.c:111 | the value read, stored back in host order, is the payload again |
| Netlink.GetPutU32 | src/expr/fwd.c:94-111 | an attribute put with a u32 keeps its type and reads back the same u32 |
| Fwd.KindSet | src/expr/fwd.c:29-46 | returns 0 and leaves the flags alone; a recognised code overwrites exactly that field with the first four data bytes (host order) and keeps the other two fields; an unrecognised code changes nothing |
| Fwd.KindGet | src/expr/fwd.c:48-65 | answers exactly for the three recognised codes, with `data_len` 4 and the field's four host-order bytes; NULL otherwise |
| Fwd.GenericSet | include/expr.h:6-11 | labelled assumption: the generic setter adds the field's presence bit to the flags word |
| Fwd.GenericGet | include/expr.h:6-11 | labelled assumption: the generic getter returns a value exactly when the field's presence bit is set |
| Fwd.Cb | src/expr/fwd.c:67-86 | an attribute above NFTA_FWD_MAX leaves the table unchanged; the callback fails exactly on a recognised attribute whose payload is not a u32; any other in-range attribute is stored under its code, so the table stays well formed |
| Fwd.ParseNested | src/expr/fwd.c:104-108 | the nested parse fails exactly when some attribute is recognised but not a valid u32; on success the table holds an entry for exactly the in-range codes some attribute carries, each under its own code, recognised entries being valid u32s |
| Fwd.Absorb | src/expr/fwd.c:110-121 | one `if (tb[...])` step: with a table entry for the field, the field takes the big-endian value of that entry's payload on either host and becomes present; without one its value and presence stay; no other bit or field changes |
| Fwd.Parse | src/expr/fwd.c:101-124 | parse fails exactly when some recognised attribute is not a valid u32; on success a field is present exactly when it was before or some attribute carries its code, and no flag bit outside the kind's three changes (values: `FwdProps.ParseSpec`) |
| Fwd.Emit | src/expr/fwd.c:93-98 | one `if (e->flags & ...)` step: a present field gives one attribute with its wire code and the big-endian bytes of its value, on either host; an absent field gives none |
| Fwd.Build | src/expr/fwd.c:88-99 | build emits at most three attributes, each a recognised code with a valid u32 payload (full shape: `FwdProps.BuildEmitsPresentFields`) |
| Fwd.NoFieldIffMaskClear | src/expr/fwd.c:93-98 | no presence bit of the kind is set exactly when none of the three fields is present |
| FwdProps.FwdOpsDescriptor | src/expr/fwd.c:151-160 | the descriptor is named "fwd", has 12 bytes of storage for three four-byte fields, and its highest attribute code is the last field code |
| FwdProps.KindSetThenGet | src/expr/fwd.c:29-65 | get after set on the same recognised code returns the four bytes written, with length 4 |
| FwdProps.KindGetThenSet | src/expr/fwd.c:29-65 | setting a field to the bytes get returned leaves the expression unchanged |
| FwdProps.KindSetIgnoresLength | src/expr/fwd.c:29-46 | the setter's outcome does not depend on `data_len` |
| FwdProps.GenericSetThenGet | src/expr/fwd.c:29-65 | under the generic assumption, get after set returns the bytes written; other fields keep their presence and value |
| FwdProps.PresentFieldsSpec | src/expr/fwd.c:93-98 | the present fields are exactly those whose bit is set, in strictly increasing code order |
| FwdProps.BuildEmitsPresentFields | src/expr/fwd.c:88-99 | build emits one attribute per present field, in the order SREG_DEV, SREG_ADDR, NFPROTO; each has the field's code and its value in network byte order, on any host |
| FwdProps.BuildShape | src/expr/fwd.c:93-98 | a field's wire attribute is emitted exactly when the field is present; attribute codes strictly increase, so no code appears twice |
| FwdProps.BuildHostIndependent | src/expr/fwd.c:93-98 | big- and little-endian hosts build identical attributes |
| FwdProps.BuildEmptyIffNoField | src/expr/fwd.c:93-98 | build emits no attribute exactly when no field is present |
| FwdProps.CbLaterDuplicateWins | src/expr/fwd.c:84 | of two valid attributes with the same code, the later one replaces the earlier |
| FwdProps.LastOfTypeSpec | src/expr/fwd.c:84 | the reference "last attribute of a code" exists exactly when some attribute has that code; it is then an attribute with that code at a position after which no attribute has that code |
| FwdProps.ParseNestedSpec | src/expr/fwd.c:67-108 | the nested parse fails exactly when some recognised attribute is not a valid u32; otherwise it keeps, for every code up to NFTA_FWD_MAX, the last attribute with that code, and nothing else |
| FwdProps.ParseSpec | src/expr/fwd.c:101-124 | parse fails exactly on a malformed recognised attribute; on success a field with an attribute takes the big-endian value of the last one and becomes present; a field without one keeps its value and presence; other flag bits are kept and flags only grow |
| FwdProps.LastOfTypeInBuild | src/expr/fwd.c:93-98 | in built attributes, the last attribute with a field's code is that field's wire attribute if present and absent otherwise |
| FwdProps.BuildThenParse | src/expr/fwd.c:88-124 | parsing built attributes into any expression succeeds; it copies every present field (value and bit) and leaves all else as it was |
| FwdProps.RoundTrip | src/expr/fwd.c:88-124 | parsing the output of build into a fresh expression reproduces the same presence bits and identical values of the present fields |
| FwdProps.ParseThenBuild | src/expr/fwd.c:88-124 | for a valid message parsed into any expression with none of the kind's bits set, building the result emits, in canonical order, the last attribute of each field under its bare code; duplicates, unrecognised codes and type flag bits are dropped |
| FwdProps.LastOfTypeSkips | src/expr/fwd.c:72-84 | removing an attribute of another code does not change which attribute is the last of a code |
| FwdProps.ParseIgnoresUnrecognised | src/expr/fwd.c:72-84 | an attribute whose code names no field (above NFTA_FWD_MAX, or the reserved 0) anywhere in the input does not change the parse result |
| FwdRender.Decimal | src/expr/fwd.c:133-144 | `%u` yields a non-empty digit string with no leading zero: a string of two or more digits never starts with '0' (so 0 prints as "0") |
| FwdRender.DecimalRoundTrip | src/expr/fwd.c:133-144 | the digits printed for a number denote that number |
| FwdRender.Fragment | src/expr/fwd.c:132-146 | a field's fragment is empty exactly when the field is absent |
| FwdRender.Render | src/expr/fwd.c:126-149 | the text is empty exactly when no field is present, and otherwise ends in a space |
| FwdRender.RenderFollowsPresentFields | src/expr/fwd.c:132-146 | the text is the fields' texts over exactly the present fields, in the order build emits them: device, address, protocol |
| FwdRender.UnrenderRender | src/expr/fwd.c:126-149 | reading the rendered text back gives `Fwd.Restrict(e)`: exactly the kind's presence bits and the values of the present fields, so fragments appear only for present fields and can be told apart |
| FwdScenario.DevAndProtoValue | src/expr/fwd.c:29-46 | setting device 1 and protocol 2 on a fresh expression marks exactly those two fields and stores 1 and 2 |
| FwdScenario.RenderDevAndProto | src/expr/fwd.c:132-146 | with device 1 and protocol 2 only, the text is "sreg_dev 1 nfproto 2 " |
| FwdScenario.DevAndProtoScenario | src/expr/fwd.c:88-148 | the device-and-protocol expression renders as "sreg_dev 1 nfproto 2 "; build then parse into a fresh expression reproduces those two fields and no other |
| FwdScenario.EmptyScenario | src/expr/fwd.c:93-148 | an expression with no field renders as "" and builds no attribute |
| FwdScenario.RenderAgreesWithWire | src/expr/fwd.c:88-149 | reading back the rendered text gives the same expression as parsing the built attributes into a fresh one |
| Batch.Stamp | examples/nft-rule-add.c:177-194 | one header per message, in order, each with its message's type; the first carries `seq` and the second the incremented `seq` |
| Batch.StampSpec | examples/nft-rule-add.c:177-194 | the i-th stamped message carries its type and sequence number `seq + i` modulo 2^32 |
| Batch.RuleTransactionFraming | examples/nft-rule-add.c:177-194 | BEGIN, NEWRULE and END carry `seq`, `seq+1` and `seq+2` (modulo 2^32) in that order, and no two share a sequence number |

## Left out

- `nftnl_expr_fwd_snprintf` buffer handling: the `SNPRINTF_BUFFER_SIZE`
  truncation arithmetic and the return value are not part of this model.
  `Render` is the complete text the three `snprintf` calls would produce
  with enough room. The output-type `flags` argument is ignored, as the
  function ignores it.
- Message framing inside the netlink library: lengths, padding, alignment
  and the structural check that stops iteration at a truncated attribute.
  A nested attribute group is the list of its attributes.
- `abi_breakage()` aborts the process. Here it is the error value
  `AbiBreakage`.
- The generic expression code is not part of this model. That covers
  allocation, the generic setter and getter, and the name attribute.
  `Fresh`, `GenericSet` and `GenericGet` are labelled assumptions about it.
- Fwd.KindSet: requires at least four data bytes for a recognised code. The
  source copies four bytes whatever `data_len` says, so a shorter buffer
  would be read out of bounds. The model makes no claim about that case.
- The width of `enum nft_registers` is taken to be four bytes, as
  `sizeof(struct nftnl_expr_fwd)` = 12 implies.
- The expression registry, the rule's expression list, and the other kinds
  (payload, cmp, counter): their source is not part of this model.
- The example client, apart from its sequence numbering, is left out:
  argument parsing, socket open/bind/send/receive, acknowledgement
  processing and exit codes. Batch headers record only the message type and
  sequence number. The request flags, the family and the subsystem id are
  not modelled.
