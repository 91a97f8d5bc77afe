/** How a session reads its first data-phase message off the socket, where the length is unmasked outside of
    the reader. */
module FirstMessage {
  import opened Bytes
  import opened Mappings
  import opened Infos
  import opened Blocks
  import opened BlockIO
  import opened BlockOrder
  import opened DataMessages
  import opened DataPhases
  import opened Lockstep

  /** Two bytes first, then as many as they announce, handed on behind the unmasked length. None while there
      are not enough. */
  ghost function ReadStream(h: Half, stream: Buffer, env: Env, c: Crypto): Option<(Reading, Buffer)>
    requires env.Valid() && c.Correct()
  {
    if |stream| < SIZE_LEN then None else
    var length := XorLength(FromBE16(stream[..SIZE_LEN]), h.Mask(c));
    if |stream| < SIZE_LEN + length then None else
    var frame := BE16(length) + stream[SIZE_LEN..SIZE_LEN + length];
    Some((if length == 0 then Dropped(h.Masked(c)) else ReadFrame(h.Masked(c), frame, false, env, c),
          stream[SIZE_LEN + length..]))
  }

  lemma Head(f: Buffer, rest: Buffer, n: nat)
    requires |f| == SIZE_LEN + n
    ensures (f + rest)[..SIZE_LEN] == f[..SIZE_LEN] && (f + rest)[SIZE_LEN..SIZE_LEN + n] == f[SIZE_LEN..]
    ensures (f + rest)[SIZE_LEN + n..] == rest
  {
  }

  /** Reading depends on what follows the length only. */
  lemma SameBody(h: Half, f: Buffer, g: Buffer, length: u16, env: Env, c: Crypto)
    requires env.Valid() && |f| == |g| == SIZE_LEN + length && f[SIZE_LEN..] == g[SIZE_LEN..]
    ensures OpenFrame(h, f, length, env, c) == OpenFrame(h, g, length, env, c)
  {
    SamePart(f, g, SIZE_LEN, SIZE_LEN, SIZE_LEN + length);
  }

  /** For a frame whose length did not wrap, at the head of any stream, this takes exactly the frame's bytes and
      does what the reader would do with the masked frame. */
  lemma StreamIsRead(h: Half, e: Buffer, rest: Buffer, env: Env, c: Crypto)
    requires c.Correct() && env.Valid() && 0 < |e| < 0x1_0000 - MAC_LEN
    ensures ReadStream(h, Frame(h, e, c) + rest, env, c) == Some((ReadFrame(h, Frame(h, e, c), true, env, c), rest))
  {
    var (f, n) := (Frame(h, e, c), |e| + MAC_LEN);
    FrameLength(h, e, c);
    Head(f, rest, n);
    FrameFate(h, e, env, c);
    SameBody(h.Masked(c), f, BE16(n) + f[SIZE_LEN..], n, env, c);
  }

  // ---------------------------------------------------------------- Bob's RouterInfo

  function FirstInfo(blocks: seq<Block>): (b: Option<Block>)
    ensures b.Some? ==> b.value.RouterInfo? && b.value in blocks
  {
    if blocks == [] then None
    else if blocks[0].RouterInfo? then Some(blocks[0])
    else FirstInfo(blocks[1..])
  }

  /** A RouterInfo among the blocks has the static key text of the one the session was made for. */
  predicate KeyKept(blocks: seq<Block>, key: Buffer) {
    var b := FirstInfo(blocks);
    b.Some? ==> b.value.info.Some? && ValueOf(b.value.info.value.options, KEY_S) == key
  }

  /** Only the first RouterInfo block counts: it must have the very option the session has, if it has one. */
  lemma {:induction false} FirstCounts(blocks: seq<Block>, i: nat, key: Buffer)
    requires i < |blocks| && blocks[i].RouterInfo? && forall j :: 0 <= j < i ==> !blocks[j].RouterInfo?
    ensures FirstInfo(blocks) == Some(blocks[i])
    ensures blocks[i].info.Some? && key != [] ==>
      (KeyKept(blocks, key) <==> Lookup(blocks[i].info.value.options, KEY_S) == Some(key))
  {
    if i > 0 {
      FirstCounts(blocks[1..], i - 1, key);
    }
  }

  lemma {:induction false} NoneCounts(blocks: seq<Block>)
    requires forall j :: 0 <= j < |blocks| ==> !blocks[j].RouterInfo?
    ensures FirstInfo(blocks) == None
  {
    if blocks != [] {
      NoneCounts(blocks[1..]);
    }
  }

  /** The length unmasked is not zero. */
  ghost predicate HasBody(h: Half, stream: Buffer, c: Crypto)
    requires c.Correct()
  {
    |stream| >= SIZE_LEN && XorLength(FromBE16(stream[..SIZE_LEN]), h.Mask(c)) != 0
  }

  /** The session becomes ready exactly when its first message has a length, is read or dropped without an
      error, and holds no RouterInfo with another key. */
  ghost predicate Ready(h: Half, stream: Buffer, before: seq<Block>, key: Buffer, env: Env, c: Crypto)
    requires env.Valid() && c.Correct()
  {
    var r := ReadStream(h, stream, env, c);
    && r.Some? && HasBody(h, stream, c) && (r.value.0.Got? || r.value.0.Dropped?)
    && KeyKept(if r.value.0.Got? then r.value.0.blocks else before, key)
  }

  /** Of a message that was read, by its first RouterInfo block. */
  lemma ReadyByInfo(h: Half, stream: Buffer, before: seq<Block>, key: Buffer, env: Env, c: Crypto, i: nat)
    requires env.Valid() && c.Correct() && ReadStream(h, stream, env, c).Some?
    requires ReadStream(h, stream, env, c).value.0.Got? && key != []
    requires var blocks := ReadStream(h, stream, env, c).value.0.blocks;
      i <= |blocks| && (forall j :: 0 <= j < i ==> !blocks[j].RouterInfo?)
      && (i < |blocks| ==> blocks[i].RouterInfo? && blocks[i].info.Some?)
    ensures var blocks := ReadStream(h, stream, env, c).value.0.blocks;
      Ready(h, stream, before, key, env, c)
      <==> (i < |blocks| ==> Lookup(blocks[i].info.value.options, KEY_S) == Some(key))
  {
    var blocks := ReadStream(h, stream, env, c).value.0.blocks;
    if i < |blocks| {
      FirstCounts(blocks, i, key);
    } else {
      NoneCounts(blocks);
    }
  }

  method ReceiveFirst(dp: DataPhase, message: DataPhaseMessage, key: Buffer, stream: Buffer, env: Env,
                      sha: Buffer -> Buffer, scheme: Scheme) returns (ready: bool, rest: Buffer)
    requires NewObject(env) && dp.kdf.crypto.Correct() && scheme.Correct() && dp.role.Responder?
    requires ReadStream(dp.kdf.State(BobToAlice), stream, env, dp.kdf.crypto).Some?
    modifies message, dp.kdf
    ensures var h := old(dp.kdf.State(BobToAlice));
      var r := ReadStream(h, stream, env, dp.kdf.crypto).value;
      && rest == r.1 && dp.kdf.State(BobToAlice) == r.0.After(h.Masked(dp.kdf.crypto))
      && message.blocks == (if r.0.Got? then r.0.blocks else old(message.blocks))
      && ready == Ready(h, stream, old(message.blocks), key, env, dp.kdf.crypto)
    ensures dp.kdf.State(AliceToBob) == old(dp.kdf.State(AliceToBob))
  {
    var length := dp.kdf.ProcessLength(FromBE16(stream[..SIZE_LEN]), BobToAlice);
    rest := stream[SIZE_LEN + length..];
    if length == 0 {
      return false, rest;
    }
    message.buffer := BE16(length) + stream[SIZE_LEN..SIZE_LEN + length];
    ready := dp.Read(message, false, env, sha, scheme);
    ready := ready && KeyKept(message.blocks, key);
  }

  lemma FirstTwo(f: Buffer, rest: Buffer)
    requires |f| >= SIZE_LEN
    ensures (f + rest)[..SIZE_LEN] == f[..SIZE_LEN]
  {
  }

  lemma BodyUnlessWrapped(h: Half, e: Buffer, rest: Buffer, c: Crypto)
    requires c.Correct() && 0 < |e| <= 0x1_0000 - MAC_LEN
    ensures HasBody(h, Frame(h, e, c) + rest, c) <==> |e| != 0x1_0000 - MAC_LEN
  {
    FrameLength(h, e, c);
    FirstTwo(Frame(h, e, c), rest);
  }

  lemma Outcome(h: Half, e: Buffer, rest: Buffer, env: Env, c: Crypto)
    requires c.Correct() && env.Valid() && 0 < |e| < 0x1_0000 - MAC_LEN
    ensures var f := Frame(h, e, c);
      var r := if |e| <= MAX_READABLE then ReadFrame(h, f, true, env, c) else Dropped(h.Masked(c));
      ReadStream(h, f + rest, env, c) == Some((r, rest))
  {
    StreamIsRead(h, e, rest, env, c);
    if |e| > MAX_READABLE {
      LargeFrame(h, e, env, c);
    }
  }

  /** A frame on the stream, by the size of what it carries. */
  lemma OnStream(h: Half, e: Buffer, rest: Buffer, env: Env, c: Crypto)
    requires c.Correct() && env.Valid() && 0 < |e| <= 0x1_0000 - MAC_LEN
    ensures var (f, wraps) := (Frame(h, e, c), |e| == 0x1_0000 - MAC_LEN);
      var r := if |e| <= MAX_READABLE then ReadFrame(h, f, true, env, c) else Dropped(h.Masked(c));
      && HasBody(h, f + rest, c) == !wraps
      && (wraps || ReadStream(h, f + rest, env, c) == Some((r, rest)))
  {
    BodyUnlessWrapped(h, e, rest, c);
    if |e| < 0x1_0000 - MAC_LEN {
      Outcome(h, e, rest, env, c);
    }
  }

  /** What becomes of a message on the stream. */
  ghost predicate Arrives(h: Half, b: seq<Block>, now: u32, rest: Buffer, env: Env, c: Crypto)
    requires c.Correct() && env.Valid() && AllAcceptable(b, now)
  {
    var (stream, n) := (Frame(h, EncodeBlocks(b, now), c) + rest, TotalSize(b));
    if n == 0x1_0000 - MAC_LEN then !HasBody(h, stream, c)
    else
      && HasBody(h, stream, c) && ReadStream(h, stream, env, c)
        == Some((if n <= MAX_READABLE then Got(h.Masked(c).Used(), QuantizedAll(b)) else Dropped(h.Masked(c)), rest))
  }

  lemma MessageArrives(h: Half, b: seq<Block>, now: u32, rest: Buffer, env: Env, c: Crypto)
    requires c.Correct() && env.Valid() && AllAcceptable(b, now) && AllReadable(b, env.now)
    requires DataOrder(Types(b)) && 0 < TotalSize(b) <= 0x1_0000 - MAC_LEN
    ensures Arrives(h, b, now, rest, env, c)
  {
    var e := EncodeBlocks(b, now);
    OnStream(h, e, rest, env, c);
    if |e| <= MAX_READABLE {
      RecoveredMessage(h, Message(b, now), env, c);
    }
  }

  /** A message of one RouterInfo block, at any time. */
  lemma OneBlock(b: Block, now: u32)
    requires b.RouterInfo? && Readable(b, 0)
    ensures AllAcceptable([b], now) && AllReadable([b], now) && DataOrder(Types([b])) && QuantizedAll([b]) == [b]
    ensures TotalSize([b]) == 4 + b.info.value.Size() && 0 < TotalSize([b]) <= 0x1_0000 - MAC_LEN
  {
    AcceptableSize(b, 0);
    assert [b][1..] == [];
  }

  /** The first message Bob writes is his RouterInfo. In step with him, Alice recovers it exactly when it has at
      most 32763 bytes; a larger one she drops, as a message without an error, and has read nothing. The largest
      makes the length wrap to zero, and she goes on waiting. */
  lemma InfoIsRead(h: Half, b: Block, now: u32, rest: Buffer, env: Env, c: Crypto)
    requires c.Correct() && env.Valid() && b.RouterInfo? && Readable(b, 0)
    ensures b.info.value.Size() <= 65516 && AllAcceptable([b], now)
    ensures var (stream, n) := (Frame(h, EncodeBlocks([b], now), c) + rest, b.info.value.Size());
      if n == 65516 then !HasBody(h, stream, c)
      else
        && HasBody(h, stream, c) && ReadStream(h, stream, env, c)
          == Some((if n <= 32763 then Got(h.Masked(c).Used(), [b]) else Dropped(h.Masked(c)), rest))
  {
    OneBlock(b, now);
    OneBlock(b, env.now);
    MessageArrives(h, [b], now, rest, env, c);
  }

  /** So a RouterInfo that is recovered makes her ready exactly when its key option is the one she has for him; one
      that is dropped makes her ready whatever its key, and the largest leaves her waiting. */
  lemma InfoMakesReady(h: Half, b: Block, now: u32, rest: Buffer, key: Buffer, env: Env, c: Crypto)
    requires c.Correct() && env.Valid() && b.RouterInfo? && Readable(b, 0) && key != []
    ensures AllAcceptable([b], now)
    ensures var (stream, v) := (Frame(h, EncodeBlocks([b], now), c) + rest, b.info.value);
      Ready(h, stream, [], key, env, c)
      <==> if v.Size() <= 32763 then Lookup(v.options, KEY_S) == Some(key) else v.Size() < 65516
  {
    InfoIsRead(h, b, now, rest, env, c);
    var stream := Frame(h, EncodeBlocks([b], now), c) + rest;
    if b.info.value.Size() <= 32763 {
      ReadyByInfo(h, stream, [], key, env, c, 0);
    }
  }
}
