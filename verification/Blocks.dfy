/** NTCP2 blocks: their contents, their bytes, and what is read back. */
module Blocks {
  import opened Bytes
  import opened Identities
  import opened Infos

  const HEADER_LEN: nat := 3
  const MAX_LEN: nat := 65516

  // Block types
  const DATE_TIME: byte := 0
  const OPTIONS: byte := 1
  const INFO: byte := 2
  const I2NP_MSG: byte := 3
  const TERMINATION: byte := 4
  const PADDING: byte := 254

  const MSG_HEADER_LEN: nat := 9
  const MAX_MSG_LEN: nat := MAX_LEN - MSG_HEADER_LEN
  const TERM_HEADER_LEN: nat := 9
  const MIN_INFO_LEN: nat := 440
  const MAX_PADDING_LEN: nat := MAX_LEN - (HEADER_LEN + MIN_INFO_LEN)
  const MAX_LAG: nat := 360

  /** A padding ratio is sent in sixteenths, in one byte. */
  type Ratio = real

  /** The contents of a block; the size field is the one the contents call for. A RouterInfo block has no
      RouterInfo before it reads one. */
  datatype Block =
    | DateTime(timestamp: u32)
    | I2NP(msgType: byte, msgId: u32, exp: u32, msg: Buffer)
    | RouterInfo(flag: byte, info: Option<Info>)
    | Options(tmin: Ratio, tmax: Ratio, rmin: Ratio, rmax: Ratio, tdummy: u16, rdummy: u16, tdelay: u16, rdelay: u16)
    | Padding(padding: Buffer)
    | Termination(reason: byte, frames: u64, ad: Buffer)
  {
    function Type(): byte {
      match this
      case DateTime(_) => DATE_TIME
      case I2NP(_, _, _, _) => I2NP_MSG
      case RouterInfo(_, _) => INFO
      case Options(_, _, _, _, _, _, _, _) => OPTIONS
      case Padding(_) => PADDING
      case Termination(_, _, _) => TERMINATION
    }

    /** The payload's length, not yet reduced to the 16 bits of the size field. */
    function PayloadLen(): nat {
      match this
      case DateTime(_) => 4
      case I2NP(_, _, _, msg) => MSG_HEADER_LEN + |msg|
      case RouterInfo(_, info) => 1 + if info.Some? then info.value.Size() else MIN_INFO_LEN
      case Options(_, _, _, _, _, _, _, _) => 12
      case Padding(p) => |p|
      case Termination(_, _, ad) => TERM_HEADER_LEN + |ad|
    }

    /** Total size, in 16 bits. */
    function Size(): nat {
      (HEADER_LEN + PayloadLen() % 0x1_0000) % 0x1_0000
    }
  }

  // ---------------------------------------------------------------- parameter checks

  /** Seconds, subtracted in 32 bits: the future does not pass. */
  predicate LagOk(now: u32, timestamp: u32) {
    (now - timestamp) % 0x1_0000_0000 <= MAX_LAG
  }

  predicate MsgTypeOk(t: byte) {
    1 <= t <= 3 || t == 10 || t == 11 || 18 <= t <= 24
  }

  predicate ReasonOk(r: byte) {
    r <= 17
  }

  predicate RatioOk(r: Ratio) {
    0.0 <= r <= 15.9375
  }

  /** Serialization accepts the block at the given time. */
  ghost predicate Acceptable(b: Block, now: u32) {
    match b
    case DateTime(t) => LagOk(now, t)
    case I2NP(t, _, exp, _) => b.PayloadLen() <= MAX_MSG_LEN && MsgTypeOk(t) && now < exp
    case RouterInfo(flag, info) =>
      && flag <= 1 && info.Some? && info.value.Valid() && |info.value.signature| == SIG_LEN
      && 1 + MIN_INFO_LEN <= b.PayloadLen() <= 1 + MAX_LEN
    case Options(a, b, c, d, _, _, _, _) => RatioOk(a) && RatioOk(b) && RatioOk(c) && RatioOk(d)
    case Padding(_) => b.PayloadLen() <= MAX_PADDING_LEN
    case Termination(r, _, _) => b.PayloadLen() <= MAX_LEN && ReasonOk(r)
  }

  /** And it can be read again at that time. */
  ghost predicate Readable(b: Block, now: u32) {
    && Acceptable(b, now)
    && (b.RouterInfo? ==> |b.info.value.addresses| <= 255 && OptionsOk(b.info.value.options))
  }

  // ---------------------------------------------------------------- bytes

  function RatioByte(r: Ratio): byte
    requires RatioOk(r)
  {
    (r * 16.0).Floor
  }

  function ByteRatio(b: byte): (r: Ratio)
    ensures RatioOk(r) && RatioByte(r) == b
  {
    b as real / 16.0
  }

  ghost function EncodePayload(b: Block, now: u32): (p: Buffer)
    requires Acceptable(b, now)
    ensures |p| == b.PayloadLen()
  {
    match b
    case DateTime(t) => BE32(t)
    case I2NP(t, id, exp, msg) => [t] + (BE32(id) + (BE32(exp) + msg))
    case RouterInfo(flag, info) => [flag] + EncodeInfo(info.value)
    case Options(tmin, tmax, rmin, rmax, tdummy, rdummy, tdelay, rdelay) =>
      [RatioByte(tmin), RatioByte(tmax), RatioByte(rmin), RatioByte(rmax)]
      + (BE16(tdummy) + (BE16(rdummy) + (BE16(tdelay) + BE16(rdelay))))
    case Padding(p) => p
    case Termination(r, frames, ad) => BE64(frames) + ([r] + ad)
  }

  /** No acceptable block is large enough for its size to wrap. */
  lemma AcceptableSize(b: Block, now: u32)
    requires Acceptable(b, now)
    ensures b.Size() == HEADER_LEN + b.PayloadLen() <= HEADER_LEN + 1 + MAX_LEN
  {
  }

  /** Type, size, payload. */
  ghost function EncodeBlock(b: Block, now: u32): (e: Buffer)
    requires Acceptable(b, now)
    ensures |e| == b.Size() == HEADER_LEN + b.PayloadLen()
  {
    AcceptableSize(b, now);
    [b.Type()] + (BE16(b.PayloadLen()) + EncodePayload(b, now))
  }

  // ---------------------------------------------------------------- reading

  /** What reading a block depends on besides the bytes: the clock, a random message id, and the state of a
      new RouterInfo object. */
  datatype Env = Env(now: u32, msgId: u32, blank: Info)
  {
    ghost predicate Valid() {
      && |blank.identity.cryptoKey| == KEY_LEN && !blank.identity.cert.unreachable && blank.options == []
    }
  }

  ghost function ParseDateTime(p: Buffer, now: u32): Option<Block> {
    if |p| == 4 && LagOk(now, FromBE32(p)) then Some(DateTime(FromBE32(p))) else None
  }

  ghost function ParseI2NP(p: Buffer, now: u32): Option<Block> {
    if |p| < MSG_HEADER_LEN || |p| > MAX_MSG_LEN || !MsgTypeOk(p[0]) || now >= FromBE32(p[5..9]) then None
    else Some(I2NP(p[0], FromBE32(p[1..5]), FromBE32(p[5..9]), p[9..]))
  }

  /** The size check also notices a RouterInfo that did not account for all its bytes. */
  ghost function ParseRouterInfo(p: Buffer, blank: Info): Option<Block>
    requires |blank.identity.cryptoKey| == KEY_LEN
  {
    if p == [] then None else
    match ParseInfo(p[1..], blank, KEY_CERT_SIZE)
    case None => None
    case Some((v, _)) =>
      if p[0] <= 1 && 1 + MIN_INFO_LEN <= |p| <= 1 + MAX_LEN && |p| == 1 + v.Size()
      then Some(RouterInfo(p[0], Some(v))) else None
  }

  ghost function ParseBlockOptions(p: Buffer): Option<Block> {
    if |p| != 12 then None
    else Some(Options(ByteRatio(p[0]), ByteRatio(p[1]), ByteRatio(p[2]), ByteRatio(p[3]),
                      FromBE16(p[4..6]), FromBE16(p[6..8]), FromBE16(p[8..10]), FromBE16(p[10..12])))
  }

  ghost function ParsePadding(p: Buffer): Option<Block> {
    if |p| > MAX_PADDING_LEN then None else Some(Padding(p))
  }

  ghost function ParseTermination(p: Buffer): Option<Block> {
    if |p| < TERM_HEADER_LEN || |p| > MAX_LEN || !ReasonOk(p[8]) then None
    else Some(Termination(p[8], FromBE64(p[..8]), p[9..]))
  }

  ghost function ParsePayload(t: byte, p: Buffer, env: Env): Option<Block>
    requires env.Valid()
  {
    if t == DATE_TIME then ParseDateTime(p, env.now)
    else if t == I2NP_MSG then ParseI2NP(p, env.now)
    else if t == INFO then ParseRouterInfo(p, env.blank)
    else if t == OPTIONS then ParseBlockOptions(p)
    else if t == PADDING then ParsePadding(p)
    else if t == TERMINATION then ParseTermination(p)
    else None
  }

  /** A block with a zero size field is not deserialized: it stays as constructed. */
  function DefaultBlock(t: byte, env: Env): Option<Block> {
    if t == DATE_TIME then Some(DateTime(env.now))
    else if t == I2NP_MSG then Some(I2NP(20, env.msgId, (env.now + 120) % 0x1_0000_0000, []))
    else if t == INFO then Some(RouterInfo(1, None))
    else if t == OPTIONS then Some(Options(0.0, 0.0, 0.0, 0.0, 0, 0, 0, 0))
    else if t == PADDING then Some(Padding([]))
    else if t == TERMINATION then Some(Termination(0, 0, []))
    else None
  }

  /** One block off the front of a buffer. */
  ghost function ParseBlock(r: Buffer, env: Env): Option<(Block, Buffer)>
    requires env.Valid()
    ensures ParseBlock(r, env).Some? ==> |ParseBlock(r, env).value.1| + HEADER_LEN <= |r|
  {
    if |r| < HEADER_LEN then None else
    var n := HEADER_LEN + FromBE16(r[1..3]);
    if |r| < n then None else
    match if n == HEADER_LEN then DefaultBlock(r[0], env) else ParsePayload(r[0], r[3..n], env)
    case None => None
    case Some(b) => Some((b, r[n..]))
  }

  // ---------------------------------------------------------------- in numbers

  /** A timestamp is taken from now back to 360 seconds ago, counted across the wrap of 32 bits too. */
  ghost predicate Recent(now: nat, t: nat) {
    t <= now <= t + 360 || (now < t && now + 0x1_0000_0000 - t <= 360)
  }

  lemma RecentExactly(now: u32, t: u32)
    ensures LagOk(now, t) <==> Recent(now as nat, t as nat)
  {
  }

  /** Which contents each kind of block accepts. */
  lemma Limits(b: Block, now: u32)
    ensures b.DateTime? ==> (Acceptable(b, now) <==> Recent(now as nat, b.timestamp as nat))
    ensures b.Padding? ==> (Acceptable(b, now) <==> |b.padding| <= 65073)
    ensures b.Termination? ==> (Acceptable(b, now) <==> |b.ad| <= 65507 && b.reason as nat <= 17)
    ensures b.I2NP? ==> (Acceptable(b, now) <==>
      && |b.msg| <= 65498 && now < b.exp
      && b.msgType as nat in {1, 2, 3, 10, 11, 18, 19, 20, 21, 22, 23, 24})
    ensures b.Options? ==> (Acceptable(b, now) <==>
      && 0.0 <= b.tmin <= 15.9375 && 0.0 <= b.tmax <= 15.9375
      && 0.0 <= b.rmin <= 15.9375 && 0.0 <= b.rmax <= 15.9375)
    ensures b.RouterInfo? ==> (Acceptable(b, now) <==>
      && b.flag as nat <= 1 && b.info.Some? && 440 <= b.info.value.Size() <= 65516
      && b.info.value.Valid() && |b.info.value.signature| == 64)
  {
  }

  /** The whole sixteenths in a ratio. */
  predicate Sixteenths(r: Ratio, b: byte) {
    16.0 * r - 1.0 < b as real <= 16.0 * r
  }

  /** Ratios are rounded down. */
  lemma RatioDown(r: Ratio)
    requires RatioOk(r)
    ensures Sixteenths(r, RatioByte(r))
  {
  }

  // ---------------------------------------------------------------- round trip

  /** Ratios lose what is below a sixteenth; everything else is exact. */
  ghost function Quantized(b: Block): (q: Block)
    ensures q.Type() == b.Type()
  {
    if !b.Options? || !(RatioOk(b.tmin) && RatioOk(b.tmax) && RatioOk(b.rmin) && RatioOk(b.rmax)) then b else
    b.(tmin := ByteRatio(RatioByte(b.tmin)), tmax := ByteRatio(RatioByte(b.tmax)),
       rmin := ByteRatio(RatioByte(b.rmin)), rmax := ByteRatio(RatioByte(b.rmax)))
  }

  lemma SmallPayloadBack(b: Block, env: Env)
    requires env.Valid() && Acceptable(b, env.now) && (b.DateTime? || b.I2NP? || b.Padding? || b.Termination?)
    ensures ParsePayload(b.Type(), EncodePayload(b, env.now), env) == Some(b)
  {
    var p := EncodePayload(b, env.now);
    match b {
      case DateTime(_) =>
      case Padding(_) =>
      case I2NP(t, id, exp, msg) =>
        assert p[1..5] == BE32(id) && p[5..9] == BE32(exp) && p[9..] == msg;
      case Termination(r, frames, ad) =>
        assert p[..8] == BE64(frames) && p[8] == r && p[9..] == ad;
    }
  }

  lemma OptionsPayloadBack(b: Block, env: Env)
    requires env.Valid() && Acceptable(b, env.now) && b.Options?
    ensures ParsePayload(OPTIONS, EncodePayload(b, env.now), env) == Some(Quantized(b))
  {
    var p := EncodePayload(b, env.now);
    assert p[4..6] == BE16(b.tdummy) && p[6..8] == BE16(b.rdummy);
    assert p[8..10] == BE16(b.tdelay) && p[10..12] == BE16(b.rdelay);
  }

  lemma InfoPayloadBack(b: Block, env: Env)
    requires env.Valid() && Readable(b, env.now) && b.RouterInfo?
    ensures ParsePayload(INFO, EncodePayload(b, env.now), env) == Some(b)
  {
    var v := b.info.value;
    RoundTrip(v, env.blank);
    assert ([b.flag] + EncodeInfo(v))[1..] == EncodeInfo(v);
  }

  lemma BlockLayout(t: byte, n: Buffer, p: Buffer, rest: Buffer)
    requires |n| == 2
    ensures var r := [t] + (n + p) + rest;
      r[0] == t && r[1..3] == n && r[3..3 + |p|] == p && r[3 + |p|..] == rest
  {
  }

  /** Every readable block reads back, whatever follows it. */
  lemma BlockBack(b: Block, env: Env, rest: Buffer)
    requires env.Valid() && Readable(b, env.now)
    ensures ParseBlock(EncodeBlock(b, env.now) + rest, env) == Some((Quantized(b), rest))
  {
    var p := EncodePayload(b, env.now);
    BlockLayout(b.Type(), BE16(|p|), p, rest);
    if b.Options? {
      OptionsPayloadBack(b, env);
    } else if b.RouterInfo? {
      InfoPayloadBack(b, env);
    } else {
      SmallPayloadBack(b, env);
    }
  }
}
