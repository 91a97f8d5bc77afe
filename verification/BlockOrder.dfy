/** The block-order checkers as loops, and the languages of block types they accept. */
module BlockOrder {
  import opened Bytes
  import opened Blocks

  function Types(blocks: seq<Block>): (ts: seq<byte>)
    ensures |ts| == |blocks| && forall i :: 0 <= i < |ts| ==> ts[i] == blocks[i].Type()
  {
    seq(|blocks|, i requires 0 <= i < |blocks| => blocks[i].Type())
  }

  // ---------------------------------------------------------------- data phase

  /** Nothing follows a padding block, and only a padding block follows a termination block. */
  ghost predicate DataOrder(ts: seq<byte>) {
    forall i :: 0 <= i < |ts| - 1 ==> ts[i] != PADDING && (ts[i] == TERMINATION ==> ts[i + 1] == PADDING)
  }

  method CheckDataOrder(blocks: seq<Block>) returns (ok: bool)
    ensures ok <==> DataOrder(Types(blocks))
  {
    var lastBlock, termBlock := false, false;
    for i := 0 to |blocks|
      invariant DataOrder(Types(blocks)[..i])
      invariant lastBlock <==> i > 0 && blocks[i - 1].Type() == PADDING
      invariant i > 0 && blocks[i - 1].Type() == TERMINATION ==> termBlock
      invariant termBlock && !lastBlock ==> i > 0 && blocks[i - 1].Type() == TERMINATION
    {
      ghost var ts := Types(blocks);
      var t := blocks[i].Type();
      if lastBlock {
        assert ts[i - 1] == PADDING;
        return false;
      }
      if termBlock && t != PADDING {
        assert ts[i - 1] == TERMINATION;
        return false;
      }
      if t == TERMINATION {
        termBlock := true;
      } else if t == PADDING {
        lastBlock := true;
      }
    }
    assert Types(blocks)[..|blocks|] == Types(blocks);
    return true;
  }

  /** The accepted language: blocks that are neither padding nor termination, then at most one termination
      block, then at most one padding block. */
  ghost predicate DataLanguage(ts: seq<byte>, body: seq<byte>, term: seq<byte>, pad: seq<byte>) {
    && ts == body + term + pad
    && PADDING !in body && TERMINATION !in body
    && (term == [] || term == [TERMINATION]) && (pad == [] || pad == [PADDING])
  }

  lemma OrderAt(ts: seq<byte>, j: nat)
    requires DataOrder(ts) && j < |ts|
    ensures j + 1 < |ts| ==> ts[j] != PADDING && (ts[j] == TERMINATION ==> ts[j + 1] == PADDING && j + 2 == |ts|)
  {
  }

  lemma DataOrderLanguage(ts: seq<byte>)
    ensures DataOrder(ts) <==> exists body, term, pad :: DataLanguage(ts, body, term, pad)
  {
    if DataOrder(ts) {
      var r, pad := ts, [];
      if r != [] && r[|r| - 1] == PADDING {
        r, pad := ts[..|ts| - 1], [PADDING];
      }
      var body, term := r, [];
      if r != [] && r[|r| - 1] == TERMINATION {
        body, term := r[..|r| - 1], [TERMINATION];
      }
      assert r == body + term && ts == r + pad;
      forall j | 0 <= j < |body|
        ensures body[j] != PADDING && body[j] != TERMINATION
      {
        assert body[j] == ts[j];
        OrderAt(ts, j);
      }
      assert DataLanguage(ts, body, term, pad);
    }
  }

  /** Both languages are closed under prefixes, so checking after every added block is one check at the end. */
  lemma DataOrderIncremental(ts: seq<byte>)
    ensures DataOrder(ts) <==> forall k :: 0 <= k <= |ts| ==> DataOrder(ts[..k])
  {
    assert ts[..|ts|] == ts;
  }

  // ---------------------------------------------------------------- SessionConfirmed, container

  ghost predicate ConfirmOrder(ts: seq<byte>) {
    ts == [INFO] || ts == [INFO, OPTIONS] || ts == [INFO, PADDING] || ts == [INFO, OPTIONS, PADDING]
  }

  lemma ConfirmPrefix(ts: seq<byte>, k: nat)
    requires 0 < k <= |ts|
    ensures ConfirmOrder(ts) ==> ConfirmOrder(ts[..k])
  {
  }

  /** A container of this kind holds only these three types. */
  method CheckConfirmOrder(ts: seq<byte>) returns (ok: bool)
    requires forall i :: 0 <= i < |ts| ==> ts[i] == INFO || ts[i] == OPTIONS || ts[i] == PADDING
    ensures ok <==> ts == [] || ConfirmOrder(ts)
  {
    var first, second, third, max := 0, 1, 2, 4;
    var blockPos := 0;
    for i := 0 to |ts|
      invariant ts[..i] == [] || ConfirmOrder(ts[..i])
      invariant blockPos == if i > 0 && ts[i - 1] == PADDING then max else i
    {
      var t := ts[i];
      assert ts[..i + 1] == ts[..i] + [t];
      if || (blockPos == first && t != INFO)
         || (blockPos == second && t != OPTIONS && t != PADDING)
         || (blockPos == third && t != PADDING)
         || blockPos == max {
        ConfirmPrefix(ts, i + 1);
        return false;
      }
      blockPos := if t == INFO || t == OPTIONS then blockPos + 1 else max;
    }
    assert ts[..|ts|] == ts;
    return true;
  }

  // ---------------------------------------------------------------- SessionConfirmed, parser

  /** One step of the parser's own count of blocks; None is the exception. */
  function ConfirmStep(count: nat, t: byte): Option<nat> {
    if count == 0 && t != INFO then None
    else if count == 1 && t != OPTIONS && t != PADDING then None
    else if count == 2 && t != PADDING then None
    else if count == 3 then None
    else if t == INFO || t == OPTIONS then Some(count + 1)
    else if t == PADDING then Some(3)
    else Some(count)
  }

  ghost function ConfirmSteps(count: nat, ts: seq<byte>): Option<nat>
    decreases |ts|
  {
    if ts == [] then Some(count) else
    var c := ConfirmStep(count, ts[0]);
    if c.None? then None else ConfirmSteps(c.value, ts[1..])
  }

  /** The parser accepts the same non-empty sequences as the container's checker. */
  lemma ParserOrder(ts: seq<byte>)
    requires ts != []
    ensures ConfirmSteps(0, ts).Some? <==> ConfirmOrder(ts)
  {
    if ts[0] == INFO {
      var t1 := ts[1..];
      assert ConfirmSteps(0, ts) == ConfirmSteps(1, t1);
      if t1 == [] {
        assert ts == [INFO];
      } else if t1[0] == OPTIONS {
        var t2 := t1[1..];
        assert ConfirmSteps(1, t1) == ConfirmSteps(2, t2);
        assert t2 == [] ==> ts == [INFO, OPTIONS];
        if t2 != [] && t2[0] == PADDING {
          assert ConfirmSteps(2, t2) == ConfirmSteps(3, t2[1..]);
          assert |t2| == 1 ==> ts == [INFO, OPTIONS, PADDING];
        }
      } else if t1[0] == PADDING {
        assert ConfirmSteps(1, t1) == ConfirmSteps(3, t1[1..]);
        assert |t1| == 1 ==> ts == [INFO, PADDING];
      }
    }
  }
}
