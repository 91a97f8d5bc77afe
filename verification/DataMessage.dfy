/** Data-phase messages: a container of blocks and a buffer they are written to and read from. */
module DataMessages {
  import opened Bytes
  import opened Infos
  import opened Blocks
  import opened BlockOrder
  import opened BlockIO

  const SIZE_LEN: nat := 2
  const MAX_MESSAGE: nat := 65535 + SIZE_LEN
  const MAC_LEN: nat := 16

  // ---------------------------------------------------------------- sizes and bytes of block lists

  ghost function TotalSize(blocks: seq<Block>): nat {
    if blocks == [] then 0 else blocks[0].Size() + TotalSize(blocks[1..])
  }

  ghost predicate AllAcceptable(blocks: seq<Block>, now: u32) {
    blocks == [] || (Acceptable(blocks[0], now) && AllAcceptable(blocks[1..], now))
  }

  ghost predicate AllReadable(blocks: seq<Block>, now: u32)
    ensures AllReadable(blocks, now) ==> AllAcceptable(blocks, now)
  {
    blocks == [] || (Readable(blocks[0], now) && AllReadable(blocks[1..], now))
  }

  ghost function EncodeBlocks(blocks: seq<Block>, now: u32): (e: Buffer)
    requires AllAcceptable(blocks, now)
    ensures |e| == TotalSize(blocks)
  {
    if blocks == [] then [] else EncodeBlock(blocks[0], now) + EncodeBlocks(blocks[1..], now)
  }

  // ---------------------------------------------------------------- reading

  /** The parsing loop: up to 16 trailing bytes are left alone, and the order is checked after every block. */
  ghost function ParseBlocks(rest: Buffer, env: Env, blocks: seq<Block>): Option<seq<Block>>
    requires env.Valid()
    decreases |rest|
  {
    if |rest| <= MAC_LEN then Some(blocks) else
    match ParseBlock(rest, env)
    case None => None
    case Some((b, rest')) =>
      if DataOrder(Types(blocks + [b])) then ParseBlocks(rest', env, blocks + [b]) else None
  }

  lemma ConsTypes(b: Block, t: seq<Block>)
    ensures Types([b] + t) == [b.Type()] + Types(t)
  {
  }

  ghost function QuantizedAll(blocks: seq<Block>): (q: seq<Block>)
    ensures Types(q) == Types(blocks)
  {
    if blocks == [] then [] else
    var (b, t) := (Quantized(blocks[0]), QuantizedAll(blocks[1..]));
    ConsTypes(b, t);
    ConsTypes(blocks[0], blocks[1..]);
    assert [blocks[0]] + blocks[1..] == blocks;
    [b] + t
  }

  lemma EncodeFirst(blocks: seq<Block>, now: u32, mac: Buffer)
    requires blocks != [] && AllAcceptable(blocks, now)
    ensures EncodeBlocks(blocks, now) + mac == EncodeBlock(blocks[0], now) + (EncodeBlocks(blocks[1..], now) + mac)
  {
    Assoc(EncodeBlock(blocks[0], now), EncodeBlocks(blocks[1..], now), mac);
  }

  lemma FirstBlock(done: seq<Block>, todo: seq<Block>, env: Env, mac: Buffer)
    requires todo != [] && env.Valid() && AllReadable(todo, env.now) && |mac| == MAC_LEN
    requires DataOrder(Types(done + [Quantized(todo[0])]))
    ensures ParseBlocks(EncodeBlocks(todo, env.now) + mac, env, done)
      == ParseBlocks(EncodeBlocks(todo[1..], env.now) + mac, env, done + [Quantized(todo[0])])
  {
    var r := EncodeBlocks(todo[1..], env.now) + mac;
    EncodeFirst(todo, env.now, mac);
    BlockBack(todo[0], env, r);
  }

  lemma NothingLeft(done: seq<Block>, todo: seq<Block>, env: Env, mac: Buffer)
    requires todo == [] && env.Valid() && |mac| == MAC_LEN
    ensures ParseBlocks(EncodeBlocks(todo, env.now) + mac, env, done) == Some(done + QuantizedAll(todo))
  {
    assert EncodeBlocks(todo, env.now) + mac == mac;
    assert done + [] == done;
  }

  lemma BlocksAssoc(a: seq<Block>, b: seq<Block>, c: seq<Block>)
    ensures a + b + c == a + (b + c)
  {
  }

  lemma OrderPrefix(a: seq<Block>, b: seq<Block>)
    ensures DataOrder(Types(a + b)) ==> DataOrder(Types(a))
  {
    DataOrderIncremental(Types(a + b));
    assert Types(a + b)[..|a|] == Types(a);
  }

  lemma TypesOnly(done: seq<Block>, b: Block, q: Block, t: seq<Block>)
    requires b.Type() == q.Type() && DataOrder(Types(done + ([b] + t)))
    ensures DataOrder(Types(done + [q])) && DataOrder(Types(done + [q] + t))
  {
    assert Types(done + [q] + t) == Types(done + ([b] + t));
    OrderPrefix(done + [q], t);
  }

  /** Parsing a list after the blocks before it. */
  lemma {:induction false} BlocksBack(done: seq<Block>, todo: seq<Block>, env: Env, mac: Buffer)
    requires env.Valid() && AllReadable(todo, env.now) && DataOrder(Types(done + todo)) && |mac| == MAC_LEN
    ensures ParseBlocks(EncodeBlocks(todo, env.now) + mac, env, done) == Some(done + QuantizedAll(todo))
    decreases |todo|
  {
    if todo == [] {
      NothingLeft(done, todo, env, mac);
    } else {
      var (q, t) := (Quantized(todo[0]), todo[1..]);
      assert [todo[0]] + t == todo;
      TypesOnly(done, todo[0], q, t);
      FirstBlock(done, todo, env, mac);
      BlocksBack(done + [q], t, env, mac);
      BlocksAssoc(done, [q], QuantizedAll(t));
    }
  }

  /** An order-valid list of readable blocks, followed by any 16 bytes, parses back to the same list. */
  lemma MessageBack(blocks: seq<Block>, env: Env, mac: Buffer)
    requires env.Valid() && AllReadable(blocks, env.now) && DataOrder(Types(blocks)) && |mac| == MAC_LEN
    ensures ParseBlocks(EncodeBlocks(blocks, env.now) + mac, env, []) == Some(QuantizedAll(blocks))
  {
    assert [] + blocks == blocks && [] + QuantizedAll(blocks) == QuantizedAll(blocks);
    BlocksBack([], blocks, env, mac);
  }

  // ---------------------------------------------------------------- writing

  /** Every block can be serialized with what is drawn for it. */
  ghost predicate UsableAll(blocks: seq<Block>, draws: seq<Draw>)
    ensures UsableAll(blocks, draws) ==> |draws| == |blocks|
  {
    if blocks == [] then draws == []
    else draws != [] && Usable(blocks[0]) && DrawFor(blocks[0], draws[0]) && UsableAll(blocks[1..], draws[1..])
  }

  /** Blocks are serialized, and renewed, one by one up to the first that is rejected. */
  ghost function WriteEach(blocks: seq<Block>, draws: seq<Draw>, now: u32, s: Scheme): (r: (bool, seq<Block>))
    requires UsableAll(blocks, draws)
    ensures TotalSize(r.1) == TotalSize(blocks) && Types(r.1) == Types(blocks)
  {
    if blocks == [] then (true, [])
    else if !Writable(blocks[0], now) then (false, blocks)
    else
      var (ok, t) := WriteEach(blocks[1..], draws[1..], now, s);
      var r := [Refreshed(blocks[0], draws[0], s)] + t;
      assert Types(r) == [blocks[0].Type()] + Types(t) && Types(blocks) == [blocks[0].Type()] + Types(blocks[1..]);
      assert r[1..] == t;
      (ok, r)
  }

  /** Size and order are checked first. */
  ghost function Serialized(blocks: seq<Block>, draws: seq<Draw>, now: u32, s: Scheme): (r: (bool, seq<Block>))
    requires UsableAll(blocks, draws)
    ensures TotalSize(r.1) == TotalSize(blocks) && Types(r.1) == Types(blocks)
  {
    if TotalSize(blocks) > MAX_MESSAGE || !DataOrder(Types(blocks)) then (false, blocks)
    else WriteEach(blocks, draws, now, s)
  }

  ghost predicate WritableAll(blocks: seq<Block>, now: u32) {
    blocks == [] || (Writable(blocks[0], now) && WritableAll(blocks[1..], now))
  }

  /** Each block of the result is its original, renewed. */
  ghost predicate RenewedAll(blocks: seq<Block>, draws: seq<Draw>, s: Scheme, r: seq<Block>)
    requires UsableAll(blocks, draws)
  {
    if blocks == [] then r == []
    else r != [] && r[0] == Refreshed(blocks[0], draws[0], s) && RenewedAll(blocks[1..], draws[1..], s, r[1..])
  }

  /** Serialization succeeds exactly on order-valid lists, small enough, of acceptable blocks, all renewed. */
  lemma {:induction false} SerializedAll(blocks: seq<Block>, draws: seq<Draw>, now: u32, s: Scheme)
    requires UsableAll(blocks, draws) && s.Correct()
    ensures var (ok, r) := WriteEach(blocks, draws, now, s);
      && ok == WritableAll(blocks, now) && (ok ==> AllAcceptable(r, now) && RenewedAll(blocks, draws, s, r))
  {
    if blocks != [] && Writable(blocks[0], now) {
      SerializedAll(blocks[1..], draws[1..], now, s);
      RefreshedAcceptable(blocks[0], draws[0], s, now);
    }
  }

  lemma {:induction false} EncodeNext(blocks: seq<Block>, b: Block, now: u32)
    requires AllAcceptable(blocks, now) && Acceptable(b, now)
    ensures AllAcceptable(blocks + [b], now)
    ensures EncodeBlocks(blocks + [b], now) == EncodeBlocks(blocks, now) + EncodeBlock(b, now)
  {
    if blocks == [] {
      assert [b][1..] == [];
    } else {
      EncodeNext(blocks[1..], b, now);
      assert (blocks + [b])[1..] == blocks[1..] + [b];
      Assoc(EncodeBlock(blocks[0], now), EncodeBlocks(blocks[1..], now), EncodeBlock(b, now));
    }
  }

  lemma {:induction false} TotalNext(blocks: seq<Block>, b: Block)
    ensures TotalSize(blocks + [b]) == TotalSize(blocks) + b.Size()
  {
    if blocks == [] {
      assert [b][1..] == [];
    } else {
      TotalNext(blocks[1..], b);
      assert (blocks + [b])[1..] == blocks[1..] + [b];
    }
  }

  // ---------------------------------------------------------------- the message

  ghost function ParseMessage(buffer: Buffer, env: Env): Option<seq<Block>>
    requires env.Valid()
  {
    if |buffer| < SIZE_LEN then None else ParseBlocks(buffer[SIZE_LEN..], env, [])
  }

  /** What adding a block does: whether it succeeds, and the list. */
  ghost function Added(blocks: seq<Block>, b: Block): (bool, seq<Block>) {
    if TotalSize(blocks) + b.Size() > MAX_MESSAGE then (false, blocks)
    else (DataOrder(Types(blocks + [b])), blocks + [b])
  }

  /** The buffer grows if it is too small. */
  ghost function Grown(b: Buffer, n: nat): (r: Buffer)
    ensures |r| == if |b| < n then n else |b|
  {
    if |b| < n then Resized(b, n) else b
  }

  /** A buffer with the given bytes after its size field. */
  ghost function Filled(b: Buffer, e: Buffer): (r: Buffer)
    requires |b| >= SIZE_LEN + |e|
    ensures |r| == |b|
  {
    b[..SIZE_LEN] + e + b[SIZE_LEN + |e|..]
  }

  lemma FilledParts(b: Buffer, e: Buffer, r: Buffer, n: nat)
    requires |b| == |r| >= n == SIZE_LEN + |e| && r[..n] == b[..SIZE_LEN] + e && r[n..] == b[n..]
    ensures r == Filled(b, e)
  {
    assert r == r[..n] + r[n..];
  }

  ghost function Prefixed(done: seq<Block>, r: (bool, seq<Block>)): (bool, seq<Block>) {
    (r.0, done + r.1)
  }

  lemma WrittenNext(w: Buffer, done: seq<Block>, b: Block, now: u32)
    requires AllAcceptable(done, now) && Acceptable(b, now)
    ensures AllAcceptable(done + [b], now)
    ensures w + EncodeBlocks(done, now) + EncodeBlock(b, now) == w + EncodeBlocks(done + [b], now)
  {
    EncodeNext(done, b, now);
    Assoc(w, EncodeBlocks(done, now), EncodeBlock(b, now));
  }

  lemma Replaced(done: seq<Block>, todo: seq<Block>, r: Block)
    requires todo != []
    ensures (done + todo)[|done| := r] == done + [r] + todo[1..]
  {
  }

  lemma PrefixedNone(r: (bool, seq<Block>))
    ensures Prefixed([], r) == r
  {
    assert [] + r.1 == r.1;
  }

  /** The first of the blocks still to be written. */
  lemma WriteStep(todo: seq<Block>, draws: seq<Draw>, now: u32, s: Scheme, done: seq<Block>)
    requires todo != [] && UsableAll(todo, draws)
    ensures TotalSize(todo) == todo[0].Size() + TotalSize(todo[1..])
    ensures Usable(todo[0]) && DrawFor(todo[0], draws[0]) && UsableAll(todo[1..], draws[1..])
    ensures Prefixed(done, WriteEach(todo, draws, now, s)) ==
      if !Writable(todo[0], now) then (false, done + todo)
      else Prefixed(done + [Refreshed(todo[0], draws[0], s)], WriteEach(todo[1..], draws[1..], now, s))
  {
    var t := WriteEach(todo[1..], draws[1..], now, s).1;
    if Writable(todo[0], now) {
      var r := Refreshed(todo[0], draws[0], s);
      assert done + ([r] + t) == done + [r] + t;
    }
  }

  /** A block is appended first and the order checked then. */
  method AppendBlock(blocks: seq<Block>, b: Block) returns (ok: bool, r: seq<Block>)
    ensures r == blocks + [b] && ok == DataOrder(Types(r))
  {
    r := blocks + [b];
    ok := CheckDataOrder(r);
  }

  /** One pass of the parsing loop. */
  method ReadNext(reader: Reader, blocks: seq<Block>, env: Env, sha: Buffer -> Buffer, scheme: Scheme)
    returns (ok: bool, r: seq<Block>)
    requires reader.Valid() && |reader.Rest()| > MAC_LEN && NewObject(env) && scheme.Correct()
    modifies reader
    ensures reader.Valid() && (ok ==> |reader.Rest()| < |old(reader.Rest())|)
    ensures ParseBlocks(old(reader.Rest()), env, blocks) == if ok then ParseBlocks(reader.Rest(), env, r) else None
  {
    var b;
    ok, b := ReadToBlock(reader, env, sha, scheme);
    if ok {
      ok, r := AppendBlock(blocks, b);
    } else {
      r := blocks;
    }
  }

  class DataPhaseMessage {
    var blocks: seq<Block>
    var buffer: Buffer

    constructor ()
      ensures blocks == [] && buffer == []
    {
      blocks, buffer := [], [];
    }

    method Size() returns (n: nat)
      ensures n == TotalSize(blocks)
    {
      n := 0;
      for i := 0 to |blocks|
        invariant n + TotalSize(blocks[i..]) == TotalSize(blocks)
      {
        assert blocks[i..][1..] == blocks[i + 1..];
        n := n + blocks[i].Size();
      }
    }

    /** A block that is too large leaves the list alone; one that is out of order stays in it. */
    method AddBlock(b: Block) returns (ok: bool)
      modifies this`blocks
      ensures (ok, blocks) == Added(old(blocks), b)
    {
      var n := Size();
      if n + b.Size() > MAX_MESSAGE {
        return false;
      }
      ok, blocks := AppendBlock(blocks, b);
    }

    method ClearBlocks()
      modifies this`blocks
      ensures blocks == []
    {
      blocks := [];
    }

    /** Writes after the first two bytes, which are written elsewhere; the buffer grows if it is too small. */
    method Serialize(now: u32, draws: seq<Draw>, sha: Buffer -> Buffer, scheme: Scheme)
      returns (ok: bool, ghost e: Buffer)
      requires UsableAll(blocks, draws) && scheme.Correct()
      modifies this
      ensures (ok, blocks) == Serialized(old(blocks), draws, now, scheme)
      ensures ok ==> AllAcceptable(blocks, now) && e == EncodeBlocks(blocks, now) && |e| == TotalSize(old(blocks))
      ensures ok ==> buffer == Filled(Grown(old(buffer), SIZE_LEN + |e|), e)
    {
      e := [];
      var n := Size();
      if n > MAX_MESSAGE {
        return false, e;
      }
      Grow(SIZE_LEN + n);
      ok := CheckDataOrder(blocks);
      if ok {
        ok, e := WritePayload(now, draws, sha, scheme);
      }
    }

    method Grow(n: nat)
      modifies this`buffer
      ensures buffer == Grown(old(buffer), n)
    {
      if |buffer| < n {
        buffer := Resized(buffer, n);
      }
    }

    method WritePayload(now: u32, draws: seq<Draw>, sha: Buffer -> Buffer, scheme: Scheme)
      returns (ok: bool, ghost e: Buffer)
      requires UsableAll(blocks, draws) && scheme.Correct() && |buffer| >= SIZE_LEN + TotalSize(blocks)
      modifies this
      ensures (ok, blocks) == WriteEach(old(blocks), draws, now, scheme)
      ensures ok ==> AllAcceptable(blocks, now) && e == EncodeBlocks(blocks, now) && buffer == Filled(old(buffer), e)
    {
      var writer := new Writer(buffer);
      ok := writer.SkipBytes(SIZE_LEN);
      ok := WriteBlocks(writer, now, draws, sha, scheme);
      e := if ok then EncodeBlocks(blocks, now) else [];
      if ok {
        FilledParts(buffer, e, writer.buf, writer.pos);
      }
      buffer := writer.buf;
    }

    method WriteBlock(writer: Writer, i: nat, now: u32, d: Draw, sha: Buffer -> Buffer, scheme: Scheme)
      returns (ok: bool)
      requires i < |blocks| && Usable(blocks[i]) && DrawFor(blocks[i], d) && scheme.Correct()
      requires writer.Valid() && writer.pos + blocks[i].Size() <= |writer.buf|
      modifies this`blocks, writer
      ensures writer.Valid() && |writer.buf| == |old(writer.buf)| && ok == Writable(old(blocks)[i], now)
      ensures blocks == if ok then old(blocks)[i := Refreshed(old(blocks)[i], d, scheme)] else old(blocks)
      ensures ok ==> Acceptable(blocks[i], now) && writer.Done() == old(writer.Done()) + EncodeBlock(blocks[i], now)
      ensures ok ==> writer.pos == old(writer.pos) + old(blocks)[i].Size()
      ensures ok ==> writer.buf[writer.pos..] == old(writer.buf)[writer.pos..]
    {
      var r;
      ok, r := WriteToBuffer(writer, blocks[i], now, d, sha, scheme);
      blocks := blocks[i := r];
    }

    /** One pass of the writing loop: the blocks before the i-th are written, and renewed. */
    method WriteNext(writer: Writer, i: nat, now: u32, d: Draw, sha: Buffer -> Buffer, scheme: Scheme,
                     ghost done: seq<Block>, ghost todo: seq<Block>, ghost w0: Buffer, ghost before: Buffer)
      returns (ok: bool)
      requires i == |done| && todo != [] && blocks == done + todo
      requires Usable(todo[0]) && DrawFor(todo[0], d) && scheme.Correct()
      requires writer.Valid() && writer.pos + todo[0].Size() <= |writer.buf|
      requires AllAcceptable(done, now) && writer.Done() == w0 + EncodeBlocks(done, now)
      requires |before| == |writer.buf| && writer.buf[writer.pos..] == before[writer.pos..]
      modifies this`blocks, writer
      ensures writer.Valid() && |writer.buf| == |old(writer.buf)| && ok == Writable(todo[0], now)
      ensures ok ==> var r := done + [Refreshed(todo[0], d, scheme)];
        && AllAcceptable(r, now) && writer.Done() == w0 + EncodeBlocks(r, now) && blocks == r + todo[1..]
      ensures ok ==> writer.pos == old(writer.pos) + todo[0].Size() && writer.buf[writer.pos..] == before[writer.pos..]
      ensures !ok ==> blocks == old(blocks)
    {
      assert blocks[i] == todo[0];
      ok := WriteBlock(writer, i, now, d, sha, scheme);
      if ok {
        SameTail(old(writer.buf), before, old(writer.pos), writer.pos);
        WrittenNext(w0, done, blocks[i], now);
        Replaced(done, todo, blocks[i]);
      }
    }

    method WriteBlocks(writer: Writer, now: u32, draws: seq<Draw>, sha: Buffer -> Buffer, scheme: Scheme)
      returns (ok: bool)
      requires UsableAll(blocks, draws) && scheme.Correct()
      requires writer.Valid() && writer.pos + TotalSize(blocks) <= |writer.buf|
      modifies this`blocks, writer
      ensures (ok, blocks) == WriteEach(old(blocks), draws, now, scheme)
      ensures ok ==> AllAcceptable(blocks, now)
      ensures writer.Valid() && |writer.buf| == |old(writer.buf)|
      ensures ok ==> writer.Done() == old(writer.Done()) + EncodeBlocks(blocks, now)
      ensures ok ==> writer.buf[writer.pos..] == old(writer.buf)[writer.pos..]
    {
      ghost var (w0, before, target) := (writer.Done(), writer.buf, WriteEach(blocks, draws, now, scheme));
      ghost var done: seq<Block>, todo: seq<Block>, left: seq<Draw> := [], blocks, draws;
      ok := true;
      PrefixedNone(target);
      for i := 0 to |blocks|
        invariant ok && writer.Valid() && |writer.buf| == |before| && |blocks| == |old(blocks)|
        invariant |done| == i && blocks == done + todo && left == draws[i..] && UsableAll(todo, left)
        invariant writer.pos + TotalSize(todo) <= |before|
        invariant AllAcceptable(done, now) && writer.Done() == w0 + EncodeBlocks(done, now)
        invariant writer.buf[writer.pos..] == before[writer.pos..]
        invariant target == Prefixed(done, WriteEach(todo, left, now, scheme))
      {
        WriteStep(todo, left, now, scheme, done);
        ok := WriteNext(writer, i, now, draws[i], sha, scheme, done, todo, w0, before);
        if !ok {
          return;
        }
        done, todo, left := done + [Refreshed(todo[0], left[0], scheme)], todo[1..], left[1..];
      }
      assert blocks == done;
    }

    /** The list is replaced only once everything has been read. */
    method Deserialize(env: Env, sha: Buffer -> Buffer, scheme: Scheme) returns (ok: bool)
      requires NewObject(env) && scheme.Correct()
      modifies this`blocks
      ensures var p := ParseMessage(buffer, env);
        ok == p.Some? && blocks == if ok then p.value else old(blocks)
    {
      var reader := new Reader(buffer);
      ok := reader.SkipBytes(SIZE_LEN);
      if !ok { return; }
      var newBlocks := [];
      ghost var target := ParseMessage(buffer, env);
      while reader.GCount() > MAC_LEN
        invariant reader.Valid() && blocks == old(blocks)
        invariant target == ParseBlocks(reader.Rest(), env, newBlocks)
        decreases |reader.Rest()|
      {
        ok, newBlocks := ReadNext(reader, newBlocks, env, sha, scheme);
        if !ok { return; }
      }
      blocks := newBlocks;
      ok := true;
    }
  }

  // ---------------------------------------------------------------- any run of operations

  datatype MessageOp = Add(b: Block) | Write(draws: seq<Draw>, now: u32) | Clear

  ghost function Do(blocks: seq<Block>, op: MessageOp, s: Scheme): (bool, seq<Block>) {
    match op
    case Add(b) => Added(blocks, b)
    case Write(draws, now) => if UsableAll(blocks, draws) then Serialized(blocks, draws, now, s) else (false, blocks)
    case Clear => (true, [])
  }

  /** The outcome of each operation, and the final list. */
  ghost function DoAll(blocks: seq<Block>, ops: seq<MessageOp>, s: Scheme): (r: (seq<bool>, seq<Block>))
    ensures |r.0| == |ops|
    decreases |ops|
  {
    if ops == [] then ([], blocks) else
    var (ok, b) := Do(blocks, ops[0], s);
    var (oks, b') := DoAll(b, ops[1..], s);
    ([ok] + oks, b')
  }

  /** Once a block was rejected for its order, every operation fails until the list is cleared. */
  lemma {:induction false} StuckUntilCleared(blocks: seq<Block>, ops: seq<MessageOp>, s: Scheme)
    requires !DataOrder(Types(blocks)) && Clear !in ops
    ensures var (oks, b) := DoAll(blocks, ops, s);
      blocks <= b && !DataOrder(Types(b)) && forall i :: 0 <= i < |oks| ==> !oks[i]
    decreases |ops|
  {
    if ops != [] {
      var b := Do(blocks, ops[0], s).1;
      if ops[0].Add? {
        OrderPrefix(blocks, [ops[0].b]);
      }
      StuckUntilCleared(b, ops[1..], s);
    }
  }

  ghost function Adds(l: seq<Block>): (ops: seq<MessageOp>)
  {
    if l == [] then [] else [MessageOp.Add(l[0])] + Adds(l[1..])
  }

  ghost predicate AllTrue(oks: seq<bool>) {
    forall i :: 0 <= i < |oks| ==> oks[i]
  }

  lemma AllTrueNext(ok: bool, oks: seq<bool>)
    ensures AllTrue([ok] + oks) <==> ok && AllTrue(oks)
  {
    assert ([ok] + oks)[0] == ok;
    assert forall i :: 0 <= i < |oks| ==> oks[i] == ([ok] + oks)[i + 1];
  }

  lemma AddsStep(blocks: seq<Block>, x: Block, t: seq<Block>, s: Scheme)
    ensures var b := blocks + [x];
      var (oks, r) := DoAll(blocks, Adds([x] + t), s);
      if DataOrder(Types(b)) && TotalSize(b) <= MAX_MESSAGE
      then AllTrue(oks) == AllTrue(DoAll(b, Adds(t), s).0) && r == DoAll(b, Adds(t), s).1
      else !AllTrue(oks)
  {
    TotalNext(blocks, x);
    var (ok, b) := Added(blocks, x);
    assert ([x] + t)[1..] == t;
    assert Adds([x] + t)[1..] == Adds(t);
    AllTrueNext(ok, DoAll(b, Adds(t), s).0);
  }

  lemma {:induction false} TotalGrows(a: seq<Block>, b: seq<Block>)
    ensures TotalSize(a) <= TotalSize(a + b)
  {
    if a != [] {
      assert (a + b)[1..] == a[1..] + b;
      TotalGrows(a[1..], b);
    }
  }

  /** Adding blocks one at a time succeeds throughout exactly when one check of the whole list would. */
  lemma {:induction false} AddsAccepted(blocks: seq<Block>, l: seq<Block>, s: Scheme)
    requires DataOrder(Types(blocks)) && TotalSize(blocks) <= MAX_MESSAGE
    ensures var (oks, b) := DoAll(blocks, Adds(l), s);
      && (AllTrue(oks) <==> DataOrder(Types(blocks + l)) && TotalSize(blocks + l) <= MAX_MESSAGE)
      && (AllTrue(oks) ==> b == blocks + l)
    decreases |l|
  {
    if l == [] {
      assert blocks + l == blocks;
    } else {
      var (b, t) := (blocks + [l[0]], l[1..]);
      AddsStep(blocks, l[0], t, s);
      assert [l[0]] + t == l;
      assert blocks + l == b + t;
      if DataOrder(Types(b)) && TotalSize(b) <= MAX_MESSAGE {
        AddsAccepted(b, t, s);
      } else {
        OrderPrefix(b, t);
        TotalGrows(b, t);
      }
    }
  }
}
