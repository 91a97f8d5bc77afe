/** SessionConfirmed messages: a RouterInfo block, an options block and a padding block as payload. */
module ConfirmedMessages {
  import opened Bytes
  import opened Infos
  import opened Blocks
  import opened BlockOrder
  import opened LeafBlocks
  import opened BlockIO

  const MAC_LEN: nat := 16
  const PART_ONE_SIZE: nat := 48

  function PadSize(pad: Block): nat {
    if pad.Padding? && pad.padding == [] then 0 else pad.Size()
  }

  /** The three blocks. None of them depends on the clock. */
  datatype Parts = Parts(info: Block, opt: Block, pad: Block)
  {
    ghost predicate Valid() {
      info.RouterInfo? && opt.Options? && pad.Padding?
    }

    /** The blocks' bytes and room for the authentication tag; an empty padding block is not written. */
    function Total(): nat {
      info.Size() + opt.Size() + PadSize(pad) + MAC_LEN
    }

    ghost predicate AllAcceptable() {
      Valid() && Acceptable(info, 0) && Acceptable(opt, 0) && Acceptable(pad, 0)
    }

    ghost predicate AllWritable() {
      Writable(info, 0) && Writable(opt, 0) && Writable(pad, 0)
    }

    ghost function Renewed(infoDraw: Draw, padDraw: Draw, s: Scheme): Parts
      requires Valid() && Usable(info) && DrawFor(info, infoDraw) && DrawFor(pad, padDraw)
    {
      Parts(Refreshed(info, infoDraw, s), opt, Refreshed(pad, padDraw, s))
    }

    function Put(b: Block): Parts {
      if b.RouterInfo? then this.(info := b) else if b.Options? then this.(opt := b) else this.(pad := b)
    }
  }

  ghost function EncodePad(pad: Block): (e: Buffer)
    requires pad.Padding? && Acceptable(pad, 0)
    ensures |e| == PadSize(pad)
  {
    if pad.padding == [] then [] else EncodeBlock(pad, 0)
  }

  ghost function EncodeParts(p: Parts): (e: Buffer)
    requires p.AllAcceptable()
    ensures |e| + MAC_LEN == p.Total()
  {
    EncodeBlock(p.info, 0) + (EncodeBlock(p.opt, 0) + EncodePad(p.pad))
  }

  // ---------------------------------------------------------------- reading

  /** A block read over the one of its kind, and what follows it. One with a zero size field is skipped. */
  ghost function ParseOver(r: Buffer, p: Parts, env: Env): (s: Option<(Buffer, Parts)>)
    requires env.Valid() && |r| >= HEADER_LEN
    ensures s.Some? ==> |s.value.0| < |r|
  {
    var n := HEADER_LEN + FromBE16(r[1..3]);
    if |r| < n then None
    else if n == HEADER_LEN then Some((r[n..], p))
    else match ParsePayload(r[0], r[3..n], env)
      case None => None
      case Some(b) => Some((r[n..], p.Put(b)))
  }

  /** The parsing loop, over the blocks the object already has. Up to 16 bytes at the end are ignored, and 17 or
      18 are an error. */
  ghost function ParseRest(r: Buffer, count: nat, p: Parts, env: Env): Option<Parts>
    requires env.Valid()
    decreases |r|
  {
    if |r| < HEADER_LEN + MAC_LEN then if |r| > MAC_LEN then None else Some(p)
    else if ConfirmStep(count, r[0]).None? then None
    else match ParseOver(r, p, env)
      case None => None
      case Some((r', p')) => ParseRest(r', ConfirmStep(count, r[0]).value, p', env)
  }

  ghost function ParseConfirmed(payload: Buffer, p: Parts, env: Env): Option<Parts>
    requires env.Valid()
  {
    if |payload| <= MAC_LEN then None else ParseRest(payload, 0, p, env)
  }

  // ---------------------------------------------------------------- round trip

  lemma AnyTime(b: Block, now: u32)
    requires b.RouterInfo? || b.Options? || b.Padding?
    requires Acceptable(b, 0)
    ensures Acceptable(b, now) && EncodeBlock(b, now) == EncodeBlock(b, 0)
  {
  }

  /** A block read over the one of its kind. */
  lemma OneOver(b: Block, r: Buffer, p: Parts, env: Env)
    requires env.Valid() && Acceptable(b, 0) && (b.RouterInfo? || b.Options? || b.Padding?)
    requires Readable(b, 0) && b.PayloadLen() > 0
    ensures ParseOver(EncodeBlock(b, 0) + r, p, env) == Some((r, p.Put(Quantized(b))))
  {
    AnyTime(b, env.now);
    BlockBack(b, env, r);
    BlockLayout(b.Type(), BE16(b.PayloadLen()), EncodePayload(b, 0), r);
  }

  /** One block of the payload, when at least 16 bytes follow it or it is long enough itself. */
  lemma NextBlock(b: Block, r: Buffer, count: nat, p: Parts, env: Env)
    requires env.Valid() && Acceptable(b, 0) && (b.RouterInfo? || b.Options? || b.Padding?)
    requires Readable(b, 0) && b.PayloadLen() > 0 && b.PayloadLen() + |r| >= MAC_LEN
    requires ConfirmStep(count, b.Type()).Some?
    ensures ParseRest(EncodeBlock(b, 0) + r, count, p, env)
      == ParseRest(r, ConfirmStep(count, b.Type()).value, p.Put(Quantized(b)), env)
  {
    OneOver(b, r, p, env);
    assert (EncodeBlock(b, 0) + r)[0] == b.Type();
  }

  lemma InfoThenRest(p: Parts, old_: Parts, env: Env, tail: Buffer)
    requires env.Valid() && p.AllAcceptable() && Readable(p.info, 0)
    ensures ParseConfirmed(EncodeParts(p) + tail, old_, env)
      == ParseRest(EncodeBlock(p.opt, 0) + (EncodePad(p.pad) + tail), 1, old_.(info := p.info), env)
  {
    var r := EncodeBlock(p.opt, 0) + EncodePad(p.pad);
    Assoc(EncodeBlock(p.info, 0), r, tail);
    Assoc(EncodeBlock(p.opt, 0), EncodePad(p.pad), tail);
    NextBlock(p.info, r + tail, 0, old_, env);
  }

  lemma OptionsThenRest(p: Parts, old_: Parts, env: Env, tail: Buffer)
    requires env.Valid() && p.AllAcceptable() && |EncodePad(p.pad)| + |tail| > 3
    ensures ParseRest(EncodeBlock(p.opt, 0) + (EncodePad(p.pad) + tail), 1, old_.(info := p.info), env)
      == ParseRest(EncodePad(p.pad) + tail, 2, Parts(p.info, Quantized(p.opt), old_.pad), env)
  {
    NextBlock(p.opt, EncodePad(p.pad) + tail, 1, old_.(info := p.info), env);
  }

  lemma PaddingThenRest(p: Parts, old_: Parts, env: Env, tail: Buffer)
    requires env.Valid() && p.AllAcceptable() && p.pad.padding != []
    requires |p.pad.padding| + |tail| >= MAC_LEN && |tail| <= MAC_LEN
    ensures ParseRest(EncodePad(p.pad) + tail, 2, Parts(p.info, Quantized(p.opt), old_.pad), env)
      == Some(p.(opt := Quantized(p.opt)))
  {
    NextBlock(p.pad, tail, 2, Parts(p.info, Quantized(p.opt), old_.pad), env);
  }

  function PadLen(pad: Block): nat {
    if pad.Padding? then |pad.padding| else 0
  }

  /** What a receiver ends up with, by the number of padding bytes. */
  ghost function Received(p: Parts, old_: Parts): Option<Parts> {
    var k := PadLen(p.pad);
    if k >= 16 then Some(p.(opt := Quantized(p.opt)))
    else if k >= 14 then None
    else if k >= 1 then Some(Parts(p.info, Quantized(p.opt), old_.pad))
    else Some(Parts(p.info, old_.opt, old_.pad))
  }

  lemma NoTail(b: Buffer)
    ensures b + [] == b
  {
  }

  /** Options at the end are left over. */
  lemma OptionsAlone(opt: Block, p: Parts, env: Env)
    requires env.Valid() && opt.Options? && Acceptable(opt, 0)
    ensures ParseRest(EncodeBlock(opt, 0) + [], 1, p, env) == Some(p)
  {
  }

  /** The padding block at the end, read or left over. */
  lemma PaddingAlone(p: Parts, old_: Parts, env: Env)
    requires env.Valid() && p.AllAcceptable() && p.pad.padding != []
    ensures ParseRest(EncodePad(p.pad), 2, Parts(p.info, Quantized(p.opt), old_.pad), env) == Received(p, old_)
  {
    if |p.pad.padding| >= MAC_LEN {
      assert EncodePad(p.pad) + [] == EncodePad(p.pad);
      PaddingThenRest(p, old_, env, []);
    }
  }

  /** That is, when the payload has no tag behind it, as after decryption: the last block is not looked at
      unless it is at least 19 bytes long. */
  lemma WithoutTail(p: Parts, old_: Parts, env: Env)
    requires env.Valid() && p.AllAcceptable() && Readable(p.info, 0)
    ensures ParseConfirmed(EncodeParts(p), old_, env) == Received(p, old_)
  {
    NoTail(EncodeParts(p));
    NoTail(EncodePad(p.pad));
    InfoThenRest(p, old_, env, []);
    if p.pad.padding != [] {
      OptionsThenRest(p, old_, env, []);
      PaddingAlone(p, old_, env);
    } else {
      OptionsAlone(p.opt, old_.(info := p.info), env);
    }
  }

  /** With 16 bytes behind them all blocks are read, whatever the padding. */
  lemma WithTail(p: Parts, old_: Parts, env: Env, tail: Buffer)
    requires env.Valid() && p.AllAcceptable() && Readable(p.info, 0) && |tail| == MAC_LEN
    ensures ParseConfirmed(EncodeParts(p) + tail, old_, env)
      == Some(Parts(p.info, Quantized(p.opt), if p.pad.padding == [] then old_.pad else p.pad))
  {
    InfoThenRest(p, old_, env, tail);
    OptionsThenRest(p, old_, env, tail);
    if p.pad.padding == [] {
      assert EncodePad(p.pad) + tail == tail;
    } else {
      PaddingThenRest(p, old_, env, tail);
    }
  }

  /** A receiver as constructed recovers all three blocks from a payload without a tag exactly when there are at
      least 16 bytes of padding, or there is no padding and the options are the ones it already had. */
  lemma RecoveredExactly(p: Parts, old_: Parts, env: Env)
    requires env.Valid() && p.AllAcceptable() && Readable(p.info, 0) && old_.pad == Padding([])
    ensures ParseConfirmed(EncodeParts(p), old_, env) == Some(p.(opt := Quantized(p.opt)))
      <==> |p.pad.padding| >= 16 || (p.pad.padding == [] && old_.opt == Quantized(p.opt))
  {
    WithoutTail(p, old_, env);
  }

  // ---------------------------------------------------------------- a RouterInfo that cannot be read back

  /** A later block leaves the RouterInfo alone. */
  lemma OtherBlock(r: Buffer, p: Parts, env: Env)
    requires env.Valid() && |r| >= HEADER_LEN && (r[0] == OPTIONS || r[0] == PADDING) && ParseOver(r, p, env).Some?
    ensures ParseOver(r, p, env).value.1.info == p.info
  {
  }

  lemma {:induction false} InfoKept(r: Buffer, count: nat, p: Parts, env: Env)
    requires env.Valid() && 1 <= count <= 3 && ParseRest(r, count, p, env).Some?
    ensures ParseRest(r, count, p, env).value.info == p.info
    decreases |r|
  {
    if |r| >= HEADER_LEN + MAC_LEN {
      var (r', p') := ParseOver(r, p, env).value;
      OtherBlock(r, p, env);
      InfoKept(r', ConfirmStep(count, r[0]).value, p', env);
    }
  }

  /** Whatever is read in its place, it is not what was written. */
  lemma InfoMisread(b: Block, env: Env)
    requires env.Valid() && b.RouterInfo? && Acceptable(b, 0) && !Readable(b, 0)
    ensures ParseRouterInfo(EncodePayload(b, 0), env.blank) != Some(b)
  {
    var v := b.info.value;
    RoundTrip(v, env.blank);
    InfoBack(v, env.blank, []);
    NoTail(EncodeInfo(v));
    assert EncodePayload(b, 0)[1..] == EncodeInfo(v);
  }

  lemma OverMisread(b: Block, rest: Buffer, old_: Parts, env: Env)
    requires env.Valid() && b.RouterInfo? && Acceptable(b, 0) && !Readable(b, 0)
    ensures var s := ParseOver(EncodeBlock(b, 0) + rest, old_, env);
      s.Some? ==> s.value.1.info != b
  {
    var e := EncodePayload(b, 0);
    BlockLayout(INFO, BE16(|e|), e, rest);
    InfoMisread(b, env);
  }

  /** A payload with such a RouterInfo is an exception, or gives another one. */
  lemma PartsMisread(p: Parts, old_: Parts, env: Env)
    requires env.Valid() && p.AllAcceptable() && !Readable(p.info, 0)
    ensures var r := ParseConfirmed(EncodeParts(p), old_, env);
      r.Some? ==> r.value.info != p.info
  {
    OverMisread(p.info, EncodeBlock(p.opt, 0) + EncodePad(p.pad), old_, env);
    if ParseConfirmed(EncodeParts(p), old_, env).Some? {
      var (r', p') := ParseOver(EncodeParts(p), old_, env).value;
      InfoKept(r', 1, p', env);
    }
  }

  // ---------------------------------------------------------------- order

  /** The types of the blocks the loop comes to. */
  ghost function TypesRead(r: Buffer): seq<byte>
    decreases |r|
  {
    if |r| < HEADER_LEN + MAC_LEN || |r| < HEADER_LEN + FromBE16(r[1..3]) then []
    else [r[0]] + TypesRead(r[HEADER_LEN + FromBE16(r[1..3])..])
  }

  lemma {:induction false} StepsRead(r: Buffer, count: nat, p: Parts, env: Env)
    requires env.Valid() && ParseRest(r, count, p, env).Some?
    ensures ConfirmSteps(count, TypesRead(r)).Some?
    decreases |r|
  {
    if |r| >= HEADER_LEN + MAC_LEN {
      var (r', p') := ParseOver(r, p, env).value;
      StepsRead(r', ConfirmStep(count, r[0]).value, p', env);
      assert TypesRead(r)[1..] == TypesRead(r');
    }
  }

  /** Every payload read without an error has its blocks in one of the four orders, provided it is long enough
      for the loop to look at one. */
  lemma ReadInOrder(payload: Buffer, p: Parts, env: Env)
    requires env.Valid() && ParseConfirmed(payload, p, env).Some?
    ensures |payload| >= HEADER_LEN + MAC_LEN && ConfirmOrder(TypesRead(payload))
  {
    StepsRead(payload, 0, p, env);
    ParserOrder(TypesRead(payload));
  }

  // ---------------------------------------------------------------- the message

  const DEFAULT_OPTIONS: Block := Options(0.0, 0.0, 0.0, 0.0, 0, 0, 0, 0)

  /** A block cut out of a buffer, header and all. */
  lemma FramedBlock(r: Buffer, d: Buffer, size: u16)
    requires HEADER_LEN + size <= |r| && d == r[..HEADER_LEN + size] && FromBE16(r[1..3]) == size
    ensures Framed(d) && d[0] == r[0] && d[3..] == r[3..HEADER_LEN + size]
  {
    assert d[1..3] == r[1..3];
  }

  /** A whole block of the given size, unless that is zero. */
  method ReadOver(reader: Bytes.Reader, size: u16, p: Parts, env: Env, sha: Buffer -> Buffer, scheme: Scheme)
    returns (ok: bool, r: Parts)
    requires reader.Valid() && NewObject(env) && scheme.Correct()
    requires |reader.Rest()| >= HEADER_LEN && FromBE16(reader.Rest()[1..3]) == size
    modifies reader
    ensures reader.Valid()
    ensures ParseOver(old(reader.Rest()), p, env) == if ok then Some((reader.Rest(), r)) else None
  {
    ghost var rest := reader.Rest();
    var d, b;
    r := p;
    if size == 0 {
      ok := reader.SkipBytes(HEADER_LEN);
      return;
    }
    ok, d := reader.ReadData(HEADER_LEN + size);
    if !ok { return; }
    FramedBlock(rest, d, size);
    ok, b := DeserializeBlock(d, env, sha, scheme);
    if ok {
      r := p.Put(b);
    }
  }

  lemma TwoParts(w: Buffer, a: Buffer, b: Buffer)
    ensures w + a + b == w + (a + b)
    ensures b == [] ==> w + a == w + (a + b)
  {
  }

  /** Options, and padding unless there is none. */
  method WriteOptional(writer: Bytes.Writer, opt: Block, pad: Block, d: Draw, sha: Buffer -> Buffer, scheme: Scheme)
    returns (ok: bool, pad': Block)
    requires opt.Options? && pad.Padding? && DrawFor(pad, d) && scheme.Correct() && writer.Valid()
    modifies writer
    ensures writer.Valid() && |writer.buf| == |old(writer.buf)|
    ensures ok <==> Writable(opt, 0) && Writable(pad, 0) && old(writer.pos) + opt.Size() + PadSize(pad) <= |writer.buf|
    ensures pad'.Padding? && PadSize(pad') == PadSize(pad)
    ensures ok ==> pad' == Refreshed(pad, d, scheme) && Acceptable(opt, 0) && Acceptable(pad', 0)
    ensures ok ==> writer.Done() == old(writer.Done()) + (EncodeBlock(opt, 0) + EncodePad(pad'))
  {
    pad' := pad;
    var opt';
    ok, opt' := WriteToBuffer(writer, opt, 0, d, sha, scheme);
    if ok && pad.padding != [] {
      ok, pad' := WriteToBuffer(writer, pad, 0, d, sha, scheme);
    }
    if ok {
      TwoParts(old(writer.Done()), EncodeBlock(opt, 0), EncodePad(pad'));
    }
  }

  method WriteParts(writer: Bytes.Writer, p: Parts, infoDraw: Draw, padDraw: Draw, sha: Buffer -> Buffer,
                    scheme: Scheme)
    returns (ok: bool, r: Parts)
    requires p.Valid() && Usable(p.info) && DrawFor(p.info, infoDraw) && DrawFor(p.pad, padDraw) && scheme.Correct()
    requires writer.Valid() && writer.pos == 0
    modifies writer
    ensures writer.Valid() && |writer.buf| == |old(writer.buf)|
    ensures ok <==> p.AllWritable() && p.Total() <= |writer.buf| + MAC_LEN
    ensures r.Valid() && r.Total() == p.Total()
    ensures ok ==> r == p.Renewed(infoDraw, padDraw, scheme) && r.AllAcceptable() && writer.Done() == EncodeParts(r)
  {
    r := p;
    var info, pad;
    ok, info := WriteToBuffer(writer, p.info, 0, infoDraw, sha, scheme);
    if !ok {
      return;
    }
    assert writer.Done() == EncodeBlock(info, 0);
    ok, pad := WriteOptional(writer, p.opt, p.pad, padDraw, sha, scheme);
    r := Parts(info, p.opt, pad);
  }

  lemma DataWraps(n: u16)
    ensures (PART_ONE_SIZE + n) % 0x1_0000 >= PART_ONE_SIZE + n <==> n as nat < 0x1_0000 - PART_ONE_SIZE
  {
  }

  /** The payload's buffer is as large as its size says only if the size did not wrap. */
  lemma SizeWraps(n: nat)
    ensures n <= n % 0x1_0000 + MAC_LEN <==> n < 0x1_0000
    ensures n < 0x1_0000 ==> n % 0x1_0000 == n
    ensures (PART_ONE_SIZE + n % 0x1_0000) % 0x1_0000 == (PART_ONE_SIZE + n) % 0x1_0000
  {
  }

  lemma PayloadCut(buf: Buffer, done: Buffer, e: Buffer)
    requires done == e && |done| <= |buf| && done == buf[..|done|]
    ensures |buf| == |e| + MAC_LEN ==> buf[..|buf| - MAC_LEN] == e
  {
  }

  method WritePayload(payload: Buffer, p: Parts, infoDraw: Draw, padDraw: Draw, sha: Buffer -> Buffer, scheme: Scheme)
    returns (ok: bool, r: Parts, payload': Buffer)
    requires p.Valid() && Usable(p.info) && DrawFor(p.info, infoDraw) && DrawFor(p.pad, padDraw) && scheme.Correct()
    requires |payload| == p.Total() % 0x1_0000
    ensures ok <==> p.AllWritable() && p.Total() < 0x1_0000
    ensures r.Valid() && r.Total() == p.Total()
    ensures ok ==> r == p.Renewed(infoDraw, padDraw, scheme) && r.AllAcceptable()
    ensures |payload'| == |payload|
    ensures ok ==> |payload'| == r.Total() && payload'[..|payload'| - MAC_LEN] == EncodeParts(r)
  {
    var writer := new Bytes.Writer(payload);
    SizeWraps(p.Total());
    ok, r := WriteParts(writer, p, infoDraw, padDraw, sha, scheme);
    payload' := writer.buf;
    if ok {
      PayloadCut(payload', writer.Done(), EncodeParts(r));
    }
  }

  class SessionConfirmedMessage {
    var data: Buffer
    var payload: Buffer
    var parts: Parts

    /** A message about to be received. */
    constructor (size: u16)
      ensures |data| == size
      ensures parts == Parts(RouterInfo(1, None), Options(0.0, 0.0, 0.0, 0.0, 0, 0, 0, 0), Padding([]))
    {
      data, payload := Zeros(size), [];
      parts := Parts(RouterInfo(1, None), DEFAULT_OPTIONS, Padding([]));
    }

    /** A message to be sent. */
    constructor FromInfo(v: Info, padding: Buffer)
      ensures parts == Parts(RouterInfo(1, Some(v)), Options(0.0, 0.0, 0.0, 0.0, 0, 0, 0, 0), Padding(padding))
    {
      data, payload := [], [];
      parts := Parts(RouterInfo(1, Some(v)), DEFAULT_OPTIONS, Padding(padding));
    }

    /** In 16 bits. */
    method PayloadSize() returns (n: u16)
      requires parts.Valid()
      ensures n == parts.Total() % 0x1_0000
    {
      n := (parts.info.Size() + parts.opt.Size() + PadSize(parts.pad) + MAC_LEN) % 0x1_0000;
    }

    /** Renews RouterInfo and padding. A payload too large for its own 16-bit size does not fit its buffer. */
    method Serialize(infoDraw: Draw, padDraw: Draw, sha: Buffer -> Buffer, scheme: Scheme)
      returns (ok: bool, ghost e: Buffer)
      requires parts.Valid() && Usable(parts.info) && DrawFor(parts.info, infoDraw)
      requires DrawFor(parts.pad, padDraw) && scheme.Correct()
      modifies this
      ensures ok <==> old(parts).AllWritable() && old(parts).Total() < 0x1_0000
      ensures ok ==> parts == old(parts).Renewed(infoDraw, padDraw, scheme) && parts.AllAcceptable()
      ensures ok ==> |payload| == parts.Total() == old(parts).Total()
      ensures ok ==> MAC_LEN <= |payload| < 0x1_0000
      ensures ok ==> (|data| >= PART_ONE_SIZE + |payload| <==> |payload| < 0x1_0000 - PART_ONE_SIZE)
      ensures ok ==> e == EncodeParts(parts) && payload[..|payload| - MAC_LEN] == e
      ensures |data| == (PART_ONE_SIZE + old(parts).Total()) % 0x1_0000
    {
      var n := PayloadSize();
      data := Resized(data, (PART_ONE_SIZE + n) % 0x1_0000);
      payload := Resized(payload, n);
      SizeWraps(parts.Total());
      ok, parts, payload := WritePayload(payload, parts, infoDraw, padDraw, sha, scheme);
      assert |payload| == n as nat && |data| == (PART_ONE_SIZE + n) % 0x1_0000;
      DataWraps(n);
      e := if ok then EncodeParts(parts) else [];
    }

    /** Looks at type and size, checks the order, and reads the block over the one of its kind. */
    method ProcessBlock(reader: Bytes.Reader, count: nat, env: Env, sha: Buffer -> Buffer, scheme: Scheme)
      returns (ok: bool, count': nat)
      requires reader.Valid() && |reader.Rest()| >= HEADER_LEN + MAC_LEN && NewObject(env) && scheme.Correct()
      modifies reader, this`parts
      ensures reader.Valid() && (ok ==> |reader.Rest()| < |old(reader.Rest())|)
      ensures var r := old(reader.Rest());
        var (step, over) := (ConfirmStep(count, r[0]), ParseOver(r, old(parts), env));
        if ok then step == Some(count') && over == Some((reader.Rest(), parts)) else step == None || over == None
    {
      ghost var r := reader.Rest();
      var t := reader.buf[reader.Count()];
      var size := FromBE16(reader.buf[reader.Count() + 1..reader.Count() + 3]);
      assert t == r[0] && reader.buf[reader.Count() + 1..reader.Count() + 3] == r[1..3];
      var step := ConfirmStep(count, t);
      if step.None? {
        return false, count;
      }
      count' := step.value;
      ok, parts := ReadOver(reader, size, parts, env, sha, scheme);
    }

    method Deserialize(env: Env, sha: Buffer -> Buffer, scheme: Scheme) returns (ok: bool)
      requires NewObject(env) && scheme.Correct()
      modifies this`parts
      ensures ParseConfirmed(payload, old(parts), env) == if ok then Some(parts) else None
    {
      var reader := new Bytes.Reader(payload);
      if reader.GCount() <= MAC_LEN {
        return false;
      }
      var count := 0;
      ghost var target := ParseConfirmed(payload, parts, env);
      while reader.GCount() >= HEADER_LEN + MAC_LEN
        invariant reader.Valid() && target == ParseRest(reader.Rest(), count, parts, env)
        decreases |reader.Rest()|
      {
        ok, count := ProcessBlock(reader, count, env, sha, scheme);
        if !ok { return; }
      }
      ok := reader.GCount() <= MAC_LEN;
    }
  }
}
