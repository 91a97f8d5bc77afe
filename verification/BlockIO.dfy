/** Serializing any block into a message, and reading any block out of one. */
module BlockIO {
  import opened Bytes
  import opened Identities
  import opened Infos
  import opened Blocks
  import opened LeafBlocks

  /** What one serialization draws: the date and random bytes. */
  datatype Draw = Draw(date: u64, random: Buffer)

  ghost predicate DrawFor(b: Block, d: Draw) {
    && (b.Padding? ==> |d.random| == |b.padding| < 0x1_0000)
    && (b.RouterInfo? ==> |d.random| == PADDING_LEN)
  }

  /** A RouterInfo block's RouterInfo, if it has one, has keys that can sign it. */
  ghost predicate Usable(b: Block) {
    b.RouterInfo? && b.info.Some? ==> b.info.value.Held()
  }

  /** What serialization insists on. */
  ghost predicate Writable(b: Block, now: u32) {
    if b.RouterInfo? then
      && b.info.Some? && b.info.value.Signable()
      && b.flag <= 1 && 1 + MIN_INFO_LEN <= b.PayloadLen() <= 1 + MAX_LEN
    else Acceptable(b, now)
  }

  ghost function Resigned(v: Info, d: Draw, s: Scheme): (r: Info)
    requires v.Valid() && |d.random| == PADDING_LEN
    ensures r.Valid() && r.Held() && r.Size() == v.Size()
  {
    var w := v.(identity := v.identity.(padding := d.random), date := d.date);
    w.(signature := s.sign(w.identity.signKind, w.identity.signKey, EncodeBody(w)))
  }

  /** A RouterInfo stays as it is when its addresses are refused. */
  ghost function Renewed(v: Info, d: Draw, s: Scheme): (r: Info)
    requires v.Held() && |d.random| == PADDING_LEN
    ensures r.Held() && r.Size() == v.Size()
  {
    if v.Valid() then Resigned(v, d, s) else v
  }

  lemma SameSize(a: Block, b: Block)
    requires a.PayloadLen() == b.PayloadLen()
    ensures a.Size() == b.Size()
  {
  }

  /** A block after it was serialized: padding and RouterInfo are renewed each time. */
  ghost function Refreshed(b: Block, d: Draw, s: Scheme): (r: Block)
    requires Usable(b) && DrawFor(b, d)
    ensures r.Type() == b.Type() && r.PayloadLen() == b.PayloadLen() && r.Size() == b.Size() && Usable(r)
  {
    var r := match b
      case Padding(_) => Padding(d.random)
      case RouterInfo(flag, Some(v)) => RouterInfo(flag, Some(Renewed(v, d, s)))
      case _ => b;
    SameSize(r, b);
    r
  }

  lemma RefreshedAcceptable(b: Block, d: Draw, s: Scheme, now: u32)
    requires Usable(b) && DrawFor(b, d) && s.Correct() && Writable(b, now)
    ensures Acceptable(Refreshed(b, d, s), now)
  {
  }

  // ---------------------------------------------------------------- writing

  /** The size field, in 16 bits, is the right one only for a RouterInfo within the limits. */
  lemma WritableInfo(b: Block, size: u16, now: u32)
    requires b.RouterInfo? && size as nat == b.PayloadLen() % 0x1_0000
    ensures Writable(b, now) <==> Sized(b, size)
  {
  }

  lemma IsResigned(v: Info, r: Info, d: Draw, s: Scheme)
    requires v.Valid() && r.Valid() && |d.random| == PADDING_LEN && r.SignedBy(s)
    requires r == v.(identity := v.identity.(padding := d.random), date := d.date, signature := r.signature)
    ensures r == Resigned(v, d, s)
  {
  }

  /** Serializes the RouterInfo block `b`, its size field taken from its RouterInfo. */
  method SerializeSized(block: InfoBlock, ghost b: Block, now: u32, d: Draw, ghost scheme: Scheme)
    returns (ok: bool, r: Info)
    requires block.Valid() && block.info != null && block.info.Usable() && block.info.scheme == scheme
    requires block.Contents() == b && block.size as nat == b.PayloadLen() % 0x1_0000 && |d.random| == PADDING_LEN
    modifies block`buf, block.Parts()
    ensures ok <==> Writable(b, now)
    ensures ok ==> b.info.value.Valid() && r == Resigned(b.info.value, d, scheme)
    ensures ok ==> Acceptable(RouterInfo(b.flag, Some(r)), now)
    ensures ok ==> block.buf == EncodeBlock(RouterInfo(b.flag, Some(r)), now)
  {
    WritableInfo(b, block.size, now);
    block.SameBlock(block.info);
    ok := block.Serialize(now, d.date, d.random);
    r := block.info.Contents();
    if ok {
      block.SameBlock(block.info);
      IsResigned(b.info.value, r, d, scheme);
    }
  }

  method SerializeInfo(flag: byte, v: Info, now: u32, d: Draw, sha: Buffer -> Buffer, scheme: Scheme)
    returns (ok: bool, r: Info, buf: Buffer)
    requires v.Held() && |d.random| == PADDING_LEN && scheme.Correct()
    ensures ok <==> Writable(RouterInfo(flag, Some(v)), now)
    ensures ok ==> v.Valid() && r == Resigned(v, d, scheme) && Acceptable(RouterInfo(flag, Some(r)), now)
    ensures ok ==> buf == EncodeBlock(RouterInfo(flag, Some(r)), now)
  {
    var info := new Infos.RouterInfo.FromContents(v, sha, scheme);
    var block := new InfoBlock.FromInfo(flag, info);
    ok, r := SerializeSized(block, RouterInfo(flag, Some(v)), now, d, scheme);
    buf := block.buf;
  }

  method SerializeRouterInfo(b: Block, now: u32, d: Draw, sha: Buffer -> Buffer, scheme: Scheme)
    returns (ok: bool, r: Block, buf: Buffer)
    requires b.RouterInfo? && Usable(b) && DrawFor(b, d) && scheme.Correct()
    ensures ok <==> Writable(b, now)
    ensures r == if ok then Refreshed(b, d, scheme) else b
    ensures ok ==> Acceptable(r, now) && buf == EncodeBlock(r, now)
  {
    r := b;
    if b.info.Some? {
      var v;
      ok, v, buf := SerializeInfo(b.flag, b.info.value, now, d, sha, scheme);
      r := if ok then RouterInfo(b.flag, Some(v)) else b;
    } else {
      var block := new InfoBlock();
      ok := block.Serialize(now, d.date, d.random);
      buf := block.buf;
    }
  }

  /** A block that has nothing to renew. */
  method SerializePlain(b: Block, now: u32) returns (ok: bool, buf: Buffer)
    requires !b.RouterInfo? && !b.Padding?
    ensures ok <==> Acceptable(b, now)
    ensures ok ==> buf == EncodeBlock(b, now)
  {
    match b {
      case DateTime(timestamp) =>
        var block := new DateTimeBlock(timestamp);
        ok := block.Serialize(now);
        buf := block.buf;
      case I2NP(msgType, msgId, exp, msg) =>
        var block := new I2NPBlock(msgType, msgId, exp, msg);
        ok := block.Serialize(now);
        buf := block.buf;
      case Options(_, _, _, _, _, _, _, _) =>
        var block := new OptionsBlock(b);
        ok := block.Serialize(now);
        buf := block.buf;
      case Termination(reason, frames, ad) =>
        var block := new TerminationBlock(reason, frames, ad);
        ok := block.Serialize(now);
        buf := block.buf;
    }
  }

  method SerializeBlock(b: Block, now: u32, d: Draw, sha: Buffer -> Buffer, scheme: Scheme)
    returns (ok: bool, r: Block, buf: Buffer)
    requires Usable(b) && DrawFor(b, d) && scheme.Correct()
    ensures ok <==> Writable(b, now)
    ensures r == if ok then Refreshed(b, d, scheme) else b
    ensures ok ==> Acceptable(r, now) && buf == EncodeBlock(r, now)
  {
    r := b;
    if b.RouterInfo? {
      ok, r, buf := SerializeRouterInfo(b, now, d, sha, scheme);
    } else if b.Padding? {
      var block := new PaddingBlock(b.padding);
      ok := block.Serialize(now, d.random);
      buf := block.buf;
      r := if ok then Padding(d.random) else b;
    } else {
      ok, buf := SerializePlain(b, now);
    }
  }

  method WriteToBuffer(writer: Writer, b: Block, now: u32, d: Draw, sha: Buffer -> Buffer, scheme: Scheme)
    returns (ok: bool, r: Block)
    requires Usable(b) && DrawFor(b, d) && scheme.Correct() && writer.Valid()
    modifies writer
    ensures writer.Valid() && |writer.buf| == |old(writer.buf)|
    ensures ok <==> Writable(b, now) && old(writer.pos) + b.Size() <= |writer.buf|
    ensures r == if Writable(b, now) then Refreshed(b, d, scheme) else b
    ensures ok ==> Acceptable(r, now) && writer.Done() == old(writer.Done()) + EncodeBlock(r, now)
    ensures ok ==> writer.pos == old(writer.pos) + b.Size() && writer.buf[writer.pos..] == old(writer.buf)[writer.pos..]
  {
    var buf;
    ok, r, buf := SerializeBlock(b, now, d, sha, scheme);
    if ok {
      ok := writer.WriteData(buf);
    }
  }

  // ---------------------------------------------------------------- reading

  /** A new RouterInfo object starts out with the keys it was constructed with. */
  ghost predicate NewObject(env: Env) {
    env.Valid() && env.blank.identity.Valid() && env.blank == Info(env.blank.identity, 0, [], [], [])
  }

  method DeserializeInfo(buf: Buffer, env: Env, sha: Buffer -> Buffer, scheme: Scheme) returns (ok: bool, b: Block)
    requires Framed(buf) && buf[0] == INFO && NewObject(env) && scheme.Correct()
    ensures ParseRouterInfo(buf[3..], env.blank) == if ok then Some(b) else None
  {
    var k := env.blank.identity;
    var keys := new Identity(sha, k.cryptoKind, k.cryptoKey, k.signKind, k.signKey, k.padding);
    assert keys.Contents() == k;
    var block := new InfoBlock();
    block.buf := buf;
    FramedRead(buf, env);
    ok := block.Deserialize(keys, scheme);
    b := if ok then block.Contents() else Padding([]);
  }

  method DeserializeBlock(buf: Buffer, env: Env, sha: Buffer -> Buffer, scheme: Scheme) returns (ok: bool, b: Block)
    requires Framed(buf) && NewObject(env) && scheme.Correct()
    ensures ParsePayload(buf[0], buf[3..], env) == if ok then Some(b) else None
  {
    var t := buf[0];
    ok, b := false, Padding([]);
    FramedRead(buf, env);
    if t == DATE_TIME {
      var block := new DateTimeBlock(env.now);
      block.buf := buf;
      ok := block.Deserialize(env.now);
      b := block.Contents();
    } else if t == I2NP_MSG {
      var block := new I2NPBlock(20, env.msgId, (env.now + 120) % 0x1_0000_0000, []);
      block.buf := buf;
      ok := block.Deserialize(env.now);
      b := block.Contents();
    } else if t == INFO {
      ok, b := DeserializeInfo(buf, env, sha, scheme);
    } else if t == OPTIONS {
      var block := new OptionsBlock(Options(0.0, 0.0, 0.0, 0.0, 0, 0, 0, 0));
      block.buf := buf;
      ok := block.Deserialize();
      b := block.Contents();
    } else if t == PADDING {
      var block := new PaddingBlock([]);
      block.buf := buf;
      ok := block.Deserialize();
      b := block.Contents();
    } else if t == TERMINATION {
      var block := new TerminationBlock(0, 0, []);
      block.buf := buf;
      ok := block.Deserialize();
      b := block.Contents();
    }
  }

  /** Looks at the header, then cuts out a whole block. */
  method ReadToBlock(reader: Reader, env: Env, sha: Buffer -> Buffer, scheme: Scheme) returns (ok: bool, b: Block)
    requires reader.Valid() && NewObject(env) && scheme.Correct()
    modifies reader
    ensures reader.Valid()
    ensures ParseBlock(old(reader.Rest()), env) == if ok then Some((b, reader.Rest())) else None
  {
    ghost var r := reader.Rest();
    var t, d;
    b := Padding([]);
    ok, t := reader.ReadByte();
    if !ok { return; }
    ok, d := reader.ReadData(2);
    if !ok { return; }
    assert d == r[1..3];
    var size := FromBE16(d);
    ok := reader.SkipBack(HEADER_LEN);
    if DefaultBlock(t, env).None? {
      return false, b;
    }
    ok, d := reader.ReadData(HEADER_LEN + size);
    if !ok { return; }
    assert reader.Rest() == r[3 + size as nat..];
    assert d[0] == r[0] && d[1..3] == r[1..3] && d[3..] == r[3..3 + size as nat];
    if size == 0 {
      b := DefaultBlock(t, env).value;
    } else {
      ok, b := DeserializeBlock(d, env, sha, scheme);
    }
  }
}
