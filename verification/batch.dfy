/** Sequence numbering of the rule-adding transaction: a batch-begin marker,
    one new-rule message and a batch-end marker, each stamped from a running
    32-bit counter that is post-incremented per message. */
module Batch {
  import opened Common

  datatype MsgType = BatchBegin | NewRule | BatchEnd

  datatype Header = Header(typ: MsgType, seqNo: uint32)

  /** `seq++` on a `uint32_t`: wraps to 0 after the largest value. */
  function Next(s: uint32): uint32
  {
    (s + 1) % 0x1_0000_0000
  }

  /** Stamps messages of the given types in order, starting at `s`. */
  function Stamp(s: uint32, types: seq<MsgType>): (r: seq<Header>)
    ensures |r| == |types|
    ensures forall i :: 0 <= i < |r| ==> r[i].typ == types[i]
    ensures |r| > 0 ==> r[0].seqNo == s
    ensures |r| > 1 ==> r[1].seqNo == Next(s)
    decreases |types|
  {
    if |types| == 0 then [] else [Header(types[0], s)] + Stamp(Next(s), types[1..])
  }

  /** The transaction the rule-adding client sends, starting at `s`. */
  function RuleTransaction(s: uint32): seq<Header>
  {
    Stamp(s, [BatchBegin, NewRule, BatchEnd])
  }

  lemma {:induction false} StampSpec(s: uint32, types: seq<MsgType>)
    ensures forall i :: 0 <= i < |types| ==>
              Stamp(s, types)[i] == Header(types[i], (s + i) % 0x1_0000_0000)
    decreases |types|
  {
    if |types| > 0 {
      StampSpec(Next(s), types[1..]);
      forall i | 0 < i < |types|
        ensures Stamp(s, types)[i] == Header(types[i], (s + i) % 0x1_0000_0000)
      {
        assert Stamp(s, types)[i] == Stamp(Next(s), types[1..])[i - 1];
        NextThenAdd(s, i - 1);
      }
    }
  }

  /** Incrementing then adding `k` agrees with adding `k + 1`, modulo 2^32. */
  lemma NextThenAdd(s: uint32, k: nat)
    ensures (Next(s) + k) % 0x1_0000_0000 == (s + k + 1) % 0x1_0000_0000
  {
    if s + 1 == 0x1_0000_0000 {
      assert Next(s) == 0;
      assert s + k + 1 == k + 0x1_0000_0000;
    }
  }

  /** BEGIN, the rule and END carry `seq`, `seq+1` and `seq+2` (modulo 2^32),
      in that order, and no two of them share a sequence number. */
  lemma RuleTransactionFraming(s: uint32)
    ensures |RuleTransaction(s)| == 3
    ensures RuleTransaction(s)[0] == Header(BatchBegin, s)
    ensures RuleTransaction(s)[1] == Header(NewRule, (s + 1) % 0x1_0000_0000)
    ensures RuleTransaction(s)[2] == Header(BatchEnd, (s + 2) % 0x1_0000_0000)
    ensures forall i, j :: 0 <= i < j < 3 ==> RuleTransaction(s)[i].seqNo != RuleTransaction(s)[j].seqNo
  {
    StampSpec(s, [BatchBegin, NewRule, BatchEnd]);
  }
}
