/** The handshake as two peers taking turns over two byte streams. */
module Sessions {
  import opened Bytes
  import opened Infos
  import opened Blocks
  import opened BlockIO
  import opened Handshake
  import opened ConfirmedMessages
  import Codecs
  import Identities
  import Mappings
  import Rand

  const MIN_CONFIRMED: nat := PART_ONE_SIZE + MIN_PART_TWO
  const MAX_CONFIRMED: nat := PART_ONE_SIZE + MAX_PART_TWO
  const MAX_CONFIRMED_PADDING: nat := MAX_PART_TWO - MIN_PART_TWO

  // ---------------------------------------------------------------- the padding of message three

  /** The largest padding left by a RouterInfo, subtracted and passed on in unsigned integers. */
  function DrawMax(size: nat): u32 {
    (MAX_CONFIRMED_PADDING - size) % 0x1_0000_0000
  }

  /** A session for a RouterInfo of the given size may be constructed with the given number of padding bytes:
      the number drawn, cut to 16 bits. */
  ghost predicate Admits(size: nat, pad: nat) {
    exists r: u32 :: Rand.Drawn(MIN_PADDING, DrawMax(size), r) && pad == r % 0x1_0000
  }

  /** The paddings admitted, for every RouterInfo within its limits. Between 64983 and 65015 bytes there are
      none: drawing one never ends. Above, the subtraction wraps, and any 16-bit length is admitted. */
  lemma AdmitsExactly(size: nat, pad: nat)
    requires size <= MAX_LEN
    ensures Admits(size, pad)
      <==> if size <= MAX_CONFIRMED_PADDING then MIN_PADDING <= pad < MAX_CONFIRMED_PADDING - size else pad < 0x1_0000
    ensures 64983 <= size <= MAX_CONFIRMED_PADDING ==>
      forall draws :: Rand.AllUniform(DrawMax(size), draws) ==>
        Rand.FirstWithin(MIN_PADDING, DrawMax(size), draws) == None
  {
    forall r: u32
      ensures Rand.Drawn(MIN_PADDING, DrawMax(size), r) <==> MIN_PADDING <= r as nat < DrawMax(size) as nat
    {
      Rand.DrawnExactly(MIN_PADDING, DrawMax(size), r);
    }
    Rand.DrawnExactly(MIN_PADDING, DrawMax(size), 0);
    if size <= MAX_CONFIRMED_PADDING {
      if MIN_PADDING <= pad < MAX_CONFIRMED_PADDING - size {
        var r: u32 := pad;
        assert Rand.Drawn(MIN_PADDING, DrawMax(size), r) && pad == r % 0x1_0000;
      }
    } else if pad < 0x1_0000 {
      var r: u32 := 0x1_0000 + pad;
      assert Rand.Drawn(MIN_PADDING, DrawMax(size), r) && pad == r % 0x1_0000;
    }
  }

  // ---------------------------------------------------------------- message three

  function LastMessage(t: Transcript, e: Buffer, s: Buffer, lib: Lib): Buffer {
    var c := lib.seal(t, s);
    c + lib.seal(t + [Sealed(c)], e)
  }

  function AfterLast(t: Transcript, d: Buffer): Transcript
    requires |d| >= PART_ONE_SIZE
  {
    t + [Sealed(d[..PART_ONE_SIZE]), Sealed(d[PART_ONE_SIZE..])]
  }

  /** The sender's static key, the blocks over those the reader already had, and the transcript. */
  ghost function ConfirmedFrom(t: Transcript, d: Buffer, old_: Parts, env: Env, lib: Lib):
    Option<(Buffer, Parts, Transcript)>
    requires env.Valid()
  {
    if |d| < MIN_CONFIRMED || |d| > MAX_CONFIRMED then None else
    var (c, e) := (d[..PART_ONE_SIZE], d[PART_ONE_SIZE..]);
    var (s, p) := (lib.open(t, c), lib.open(t + [Sealed(c)], e));
    if s.None? || p.None? then None else
    match ParseConfirmed(p.value, old_, env)
    case None => None
    case Some(parts) => Some((s.value, parts, AfterLast(t, d)))
  }

  // ---------------------------------------------------------------- turns

  /** A peer's progress, its handshake transcript, and the messages it has made or received. */
  datatype Peer = Peer(phase: nat, t: Transcript,
                       request: RequestOptions, c1: Buffer, pad1: Buffer,
                       created: CreatedOptions, c2: Buffer, pad2: Buffer,
                       parts: Parts, remote: Buffer)

  /** A peer's ephemeral key, its options buffer, and (Alice's) static key and draws. */
  datatype Own = Own(e: Buffer, buf: Buffer, s: Buffer, infoDraw: Draw, padDraw: Draw)
  {
    predicate Valid() {
      |e| == |s| == Handshake.KEY_LEN && |buf| == OPTIONS_SIZE
    }
  }

  /** The constants of a handshake. */
  datatype Context = Context(lib: Lib, k: Obfuscation, scheme: Scheme)
  {
    ghost predicate Correct() {
      lib.Correct() && scheme.Correct()
    }
  }

  /** Not enough input yet; an exception; or progress, with the input that is left and the bytes to send. */
  datatype Turn = Waits | Fails | Moves(peer: Peer, rest: Buffer, out: Buffer)

  /** Blocks that can be serialized with what is drawn for them. */
  ghost predicate Sendable(p: Parts, own: Own) {
    p.Valid() && Usable(p.info) && DrawFor(p.info, own.infoDraw) && DrawFor(p.pad, own.padDraw)
  }

  ghost function SendRequest(p: Peer, input: Buffer, e: Buffer, buf: Buffer, now: u32, x: Context): Turn
    requires x.Correct() && |e| == Handshake.KEY_LEN && |buf| == OPTIONS_SIZE
  {
    if !p.request.Ok(now) || p.request.padLen as nat < MIN_PADDING then Fails else
    var d := Header(p.t, e, EncodeRequest(p.request, buf), x.lib, x.k);
    var c := d[Handshake.KEY_LEN..];
    Moves(p.(phase := 1, c1 := c, t := After(p.t, e, c)), input, d + p.pad1)
  }

  ghost function ReadCreated(p: Peer, input: Buffer, now: u32, x: Context): Turn {
    if |input| < NOISE_SIZE then Waits
    else if p.c1 == [] || p.pad1 == [] then Fails
    else match CreatedFrom(Mixes(p.t, p.c1, p.pad1), input[..NOISE_SIZE], now, x.lib, x.k)
      case None => Fails
      case Some((o, t)) =>
        Moves(p.(phase := 2, created := o, c2 := input[Handshake.KEY_LEN..NOISE_SIZE], t := t), input[NOISE_SIZE..], [])
  }

  ghost function ReadCreatedPadding(p: Peer, input: Buffer): Turn {
    var n := p.created.padLen as nat;
    if |input| < n then Waits else Moves(p.(phase := 3, pad2 := input[..n]), input[n..], [])
  }

  ghost predicate ReadyToSend(p: Peer, own: Own) {
    && Sendable(p.parts, own) && p.c2 != [] && p.pad2 != [] && p.parts.AllWritable()
    && p.parts.Total() < 0x1_0000 - PART_ONE_SIZE && p.request.partTwo as nat == p.parts.Total()
  }

  lemma RenewedAcceptable(p: Parts, own: Own, s: Scheme)
    requires Sendable(p, own) && s.Correct() && p.AllWritable()
    ensures p.Renewed(own.infoDraw, own.padDraw, s).AllAcceptable()
    ensures p.Renewed(own.infoDraw, own.padDraw, s).Total() == p.Total()
  {
    RefreshedAcceptable(p.info, own.infoDraw, s, 0);
    RefreshedAcceptable(p.pad, own.padDraw, s, 0);
  }

  ghost function SendConfirmed(p: Peer, input: Buffer, own: Own, x: Context): Turn
    requires own.Valid() && x.Correct()
  {
    if !ReadyToSend(p, own) then Fails
    else
      var (t, parts) := (Mixes(p.t, p.c2, p.pad2), p.parts.Renewed(own.infoDraw, own.padDraw, x.scheme));
      RenewedAcceptable(p.parts, own, x.scheme);
      var d := LastMessage(t, EncodeParts(parts), own.s, x.lib);
      Moves(p.(phase := 4, t := AfterLast(t, d), parts := parts), input, d)
  }

  ghost function AliceTurn(p: Peer, input: Buffer, own: Own, now: u32, x: Context): Turn
    requires own.Valid() && x.Correct()
  {
    if p.phase == 0 then SendRequest(p, input, own.e, own.buf, now, x)
    else if p.phase == 1 then ReadCreated(p, input, now, x)
    else if p.phase == 2 then ReadCreatedPadding(p, input)
    else if p.phase == 3 then SendConfirmed(p, input, own, x)
    else Waits
  }

  ghost function ReadRequest(p: Peer, input: Buffer, now: u32, x: Context): Turn {
    if |input| < NOISE_SIZE then Waits
    else match RequestFrom(p.t, input[..NOISE_SIZE], now, x.lib, x.k)
      case None => Fails
      case Some((o, t)) =>
        Moves(p.(phase := 1, request := o, c1 := input[Handshake.KEY_LEN..NOISE_SIZE], t := t), input[NOISE_SIZE..], [])
  }

  ghost function ReadRequestPadding(p: Peer, input: Buffer): Turn {
    var n := p.request.padLen as nat;
    if |input| < n then Waits else Moves(p.(phase := 2, pad1 := input[..n]), input[n..], [])
  }

  ghost function SendCreated(p: Peer, input: Buffer, e: Buffer, buf: Buffer, now: u32, x: Context): Turn
    requires x.Correct() && |e| == Handshake.KEY_LEN && |buf| == OPTIONS_SIZE
  {
    if p.c1 == [] || p.pad1 == [] || !p.created.Ok(now) then Fails else
    var t := Mixes(p.t, p.c1, p.pad1);
    var d := Header(t, e, EncodeCreated(p.created, buf), x.lib, x.k);
    var c := d[Handshake.KEY_LEN..];
    Moves(p.(phase := 3, c2 := c, t := After(t, e, c)), input, d + p.pad2)
  }

  /** The static key in a RouterInfo's options decodes and is, as far as it goes, the handshake's. */
  ghost predicate KeyMatches(info: Block, s: Buffer) {
    && info.RouterInfo? && info.info.Some?
    && var key := Codecs.Decoding(Codecs.Base64, Mappings.ValueOf(info.info.value.options, KEY_S));
       key.Data? && key.data <= s
  }

  /** As it is when the option is what the constructor puts there, the text of the key itself. */
  lemma OwnKeyMatches(flag: byte, v: Info, s: Buffer)
    requires s != [] && Mappings.Lookup(v.options, KEY_S) == Codecs.Text(Codecs.Base64, s)
    ensures KeyMatches(RouterInfo(flag, Some(v)), s)
  {
    Codecs.RoundTrip64(s);
  }

  /** With the text of any key as its option, the RouterInfo passes exactly with what that key begins; another one
      of the same length does not pass. */
  lemma OtherKeyFails(flag: byte, v: Info, k: Buffer, s: Buffer)
    requires k != [] && Mappings.Lookup(v.options, KEY_S) == Codecs.Text(Codecs.Base64, k)
    ensures KeyMatches(RouterInfo(flag, Some(v)), s) <==> k <= s
    ensures |k| == |s| ==> (KeyMatches(RouterInfo(flag, Some(v)), s) <==> k == s)
  {
    Codecs.RoundTrip64(k);
  }

  ghost function ReadConfirmed(p: Peer, input: Buffer, env: Env, x: Context): Turn
    requires env.Valid()
  {
    var n := PART_ONE_SIZE + p.request.partTwo;
    if |input| < n then Waits
    else if p.c2 == [] || p.pad2 == [] then Fails
    else match ConfirmedFrom(Mixes(p.t, p.c2, p.pad2), input[..n], p.parts, env, x.lib)
      case None => Fails
      case Some((s, parts, t)) =>
        if !KeyMatches(parts.info, s) then Fails
        else Moves(p.(phase := 4, parts := parts, remote := s, t := t), input[n..], [])
  }

  ghost function BobTurn(p: Peer, input: Buffer, own: Own, env: Env, x: Context): Turn
    requires own.Valid() && env.Valid() && x.Correct()
  {
    if p.phase == 0 then ReadRequest(p, input, env.now, x)
    else if p.phase == 1 then ReadRequestPadding(p, input)
    else if p.phase == 2 then SendCreated(p, input, own.e, own.buf, env.now, x)
    else if p.phase == 3 then ReadConfirmed(p, input, env, x)
    else Waits
  }

  // ---------------------------------------------------------------- both peers

  datatype Net = Net(alice: Peer, bob: Peer, ab: Buffer, ba: Buffer)

  /** Message three serializes, as its constructor does. */
  ghost predicate Constructed(p: Parts)
    requires p.Valid()
  {
    p.AllWritable() && p.Total() < 0x1_0000
  }

  /** How a handshake begins. */
  datatype Setup = Setup(x: Context, alice: Peer, bob: Peer, ownA: Own, ownB: Own)
  {
    /** The libraries' laws, and keys and buffers of the right sizes. */
    ghost predicate Ready() {
      x.Correct() && ownA.Valid() && ownB.Valid()
    }

    /** What the session constructors and messages see to: Alice announces the size of the payload she will
        send, whatever its padding; the first two messages have paddings of 32 bytes or more, of at most what
        fits them. */
    ghost predicate Honest() {
      && Ready() && Sendable(alice.parts, ownA)
      && alice.phase == bob.phase == 0 && alice.t == bob.t
      && alice.request.version == Handshake.VERSION && alice.request.partTwo as nat == alice.parts.Total()
      && MIN_PADDING <= |alice.pad1| == alice.request.padLen as nat <= MAX_PADDING
      && MIN_PADDING <= |bob.pad2| == bob.created.padLen as nat <= MAX_PADDING
      && Constructed(alice.parts)
    }
  }

  /** Its RouterInfo can be read back. */
  ghost predicate InfoReadable(p: Parts) {
    && p.info.RouterInfo? && p.info.info.Some?
    && |p.info.info.value.addresses| <= 255 && OptionsOk(p.info.info.value.options)
  }

  /** The size of message three's payload. */
  function PayloadSize(size: nat, pad: nat): nat {
    size + 35 + if pad == 0 then 0 else 3 + pad
  }

  lemma InfoTotal(info: Block)
    requires info.RouterInfo? && Writable(info, 0)
    ensures info.Size() == 4 + info.info.value.Size() && info.info.value.Size() >= MIN_INFO_LEN
  {
  }

  lemma PadTotal(pad: Block)
    requires pad.Padding? && Writable(pad, 0)
    ensures PadSize(pad) == if PadLen(pad) == 0 then 0 else 3 + PadLen(pad)
  {
  }

  lemma PayloadTotal(p: Parts)
    requires p.Valid() && p.AllWritable()
    ensures p.Total() == PayloadSize(p.info.info.value.Size(), PadLen(p.pad)) && MIN_PART_TWO <= p.Total()
  {
    InfoTotal(p.info);
    PadTotal(p.pad);
  }

  /** A new message three, as the constructor fills it in. */
  function NewParts(v: Info, pad: nat): Parts {
    Parts(RouterInfo(1, Some(v)), DEFAULT_OPTIONS, Padding(Zeros(pad)))
  }

  /** Every RouterInfo size from 479 bytes up to the limit and every padding that keeps the payload's size within
      16 bits are those of some message three that can be constructed. */
  lemma EveryPair(size: nat, pad: nat, id: Identities.Ident)
    requires id.Valid() && id.signKind.EdDSA?
    requires 479 <= size <= MAX_LEN && pad <= MAX_PADDING_LEN && PayloadSize(size, pad) < 0x1_0000
    ensures var p := NewParts(OfSize(size, id), pad);
      && p.info.RouterInfo? && p.info.flag == 1 && p.opt == Options(0.0, 0.0, 0.0, 0.0, 0, 0, 0, 0)
      && p.Valid() && Usable(p.info) && Constructed(p) && InfoReadable(p)
      && p.info.info.value.Size() == size && PadLen(p.pad) == pad && p.Total() == PayloadSize(size, pad)
  {
    EverySize(size, id);
    PayloadTotal(NewParts(OfSize(size, id), pad));
  }

  /** The payload is announced, and read back whole or with no options of its own to read. */
  predicate Recoverable(size: nat, pad: nat, sameOptions: bool) {
    PayloadSize(size, pad) <= MAX_PART_TWO && (pad >= 16 || (pad == 0 && sameOptions))
  }

  /** A RouterInfo is recoverable with every padding that may be drawn for it exactly when it has at most 65015
      bytes; for a larger one, 14 bytes may be drawn. */
  lemma SmallEnough(size: nat)
    requires size <= MAX_LEN
    ensures (forall pad, same :: Admits(size, pad) ==> Recoverable(size, pad, same)) <==> size <= MAX_CONFIRMED_PADDING
  {
    forall pad, same | size <= MAX_CONFIRMED_PADDING && Admits(size, pad)
      ensures Recoverable(size, pad, same)
    {
      AdmitsExactly(size, pad);
    }
    AdmitsExactly(size, 14);
    assert !Recoverable(size, 14, true);
  }

  ghost predicate Timely(h: Setup, env: Env) {
    env.Valid() && LagOk(env.now, h.alice.request.timestamp) && LagOk(env.now, h.bob.created.timestamp)
  }

  /** A new session's peers: Alice with message three and her paddings' sizes in the options, Bob with his. */
  function NewSetup(x: Context, t: Transcript, parts: Parts, pad1: Buffer, pad2: Buffer, ownA: Own, ownB: Own,
                    now: u32): Setup
    requires |pad1| < 0x1_0000 && |pad2| < 0x1_0000 && parts.Total() < 0x1_0000
  {
    var none := Parts(RouterInfo(1, None), DEFAULT_OPTIONS, Padding([]));
    var o := RequestOptions(2, |pad1|, parts.Total(), now);
    Setup(x, Peer(0, t, o, [], pad1, CreatedOptions(0, now), [], [], parts, []),
          Peer(0, t, RequestOptions(2, 0, 0, now), [], [], CreatedOptions(|pad2|, now), [], pad2, none, []), ownA, ownB)
  }

  /** Handshakes of every such size and padding can begin, with any first paddings of 32 to 65471 bytes, and are
      timely for as long as 360 seconds. */
  lemma EveryBeginning(size: nat, pad: nat, id: Identities.Ident, x: Context, t: Transcript, pad1: Buffer, pad2: Buffer,
                       ownA: Own, ownB: Own, now: u32, env: Env)
    requires id.Valid() && id.signKind.EdDSA? && x.Correct() && ownA.Valid() && ownB.Valid()
    requires 479 <= size <= MAX_LEN && pad <= MAX_PADDING_LEN && PayloadSize(size, pad) < 0x1_0000
    requires 32 <= |pad1| <= 65471 && 32 <= |pad2| <= 65471 && env.Valid() && now <= env.now <= now + 360
    requires |ownA.infoDraw.random| == Identities.PADDING_LEN && |ownA.padDraw.random| == pad
    ensures var p := NewParts(OfSize(size, id), pad);
      p.Total() < 0x1_0000 && var h := NewSetup(x, t, p, pad1, pad2, ownA, ownB, now);
      h.Honest() && Timely(h, env) && InfoReadable(h.alice.parts)
  {
    EveryPair(size, pad, id);
  }

  /** One turn of Alice or Bob; None is an exception. */
  ghost function Step(n: Net, alice: bool, env: Env, h: Setup): Option<Net>
    requires h.Ready() && env.Valid()
  {
    if alice then
      match AliceTurn(n.alice, n.ba, h.ownA, env.now, h.x)
      case Waits => Some(n)
      case Fails => None
      case Moves(p, rest, out) => Some(n.(alice := p, ba := rest, ab := n.ab + out))
    else
      match BobTurn(n.bob, n.ab, h.ownB, env, h.x)
      case Waits => Some(n)
      case Fails => None
      case Moves(p, rest, out) => Some(n.(bob := p, ab := rest, ba := n.ba + out))
  }

  // ---------------------------------------------------------------- what an honest handshake goes through

  ghost function Header1(h: Setup): (d: Buffer)
    requires h.Ready()
    ensures |d| == NOISE_SIZE
  {
    HeaderBack(h.alice.t, h.ownA.e, EncodeRequest(h.alice.request, h.ownA.buf), h.x.lib, h.x.k);
    Header(h.alice.t, h.ownA.e, EncodeRequest(h.alice.request, h.ownA.buf), h.x.lib, h.x.k)
  }

  /** The transcript after each message. */
  ghost function First(h: Setup): Transcript
    requires h.Ready()
  {
    After(h.alice.t, h.ownA.e, Header1(h)[Handshake.KEY_LEN..])
  }

  ghost function FirstMixed(h: Setup): Transcript
    requires h.Ready()
  {
    Mixes(First(h), Header1(h)[Handshake.KEY_LEN..], h.alice.pad1)
  }

  ghost function Header2(h: Setup): (d: Buffer)
    requires h.Ready()
    ensures |d| == NOISE_SIZE
  {
    HeaderBack(FirstMixed(h), h.ownB.e, EncodeCreated(h.bob.created, h.ownB.buf), h.x.lib, h.x.k);
    Header(FirstMixed(h), h.ownB.e, EncodeCreated(h.bob.created, h.ownB.buf), h.x.lib, h.x.k)
  }

  ghost function Second(h: Setup): Transcript
    requires h.Ready()
  {
    After(FirstMixed(h), h.ownB.e, Header2(h)[Handshake.KEY_LEN..])
  }

  ghost function SecondMixed(h: Setup): Transcript
    requires h.Ready()
  {
    Mixes(Second(h), Header2(h)[Handshake.KEY_LEN..], h.bob.pad2)
  }

  /** The blocks as Alice sends them. */
  ghost function SentParts(h: Setup): Parts {
    if Sendable(h.alice.parts, h.ownA) then h.alice.parts.Renewed(h.ownA.infoDraw, h.ownA.padDraw, h.x.scheme)
    else h.alice.parts
  }

  ghost function Message3(h: Setup): (d: Buffer)
    requires h.Ready()
    ensures |d| >= PART_ONE_SIZE
  {
    var p := SentParts(h);
    LastMessage(SecondMixed(h), if p.AllAcceptable() then EncodeParts(p) else [], h.ownA.s, h.x.lib)
  }

  ghost function Alice(h: Setup, i: nat): Peer
    requires h.Ready()
  {
    var a0 := h.alice;
    var a1 := a0.(phase := 1, c1 := Header1(h)[Handshake.KEY_LEN..], t := First(h));
    var a2 := a1.(phase := 2, created := h.bob.created, c2 := Header2(h)[Handshake.KEY_LEN..], t := Second(h));
    var a3 := a2.(phase := 3, pad2 := h.bob.pad2);
    if i < 1 then a0 else if i < 5 then a1 else if i < 6 then a2 else if i < 7 then a3
    else a3.(phase := 4, t := AfterLast(SecondMixed(h), Message3(h)), parts := SentParts(h))
  }

  ghost function ReceivedParts(h: Setup): Parts {
    var r := Received(SentParts(h), h.bob.parts);
    if r.Some? then r.value else h.bob.parts
  }

  ghost function Bob(h: Setup, i: nat): Peer
    requires h.Ready()
  {
    var b0 := h.bob;
    var b1 := b0.(phase := 1, request := h.alice.request, c1 := Header1(h)[Handshake.KEY_LEN..], t := First(h));
    var b2 := b1.(phase := 2, pad1 := h.alice.pad1);
    var b3 := b2.(phase := 3, c2 := Header2(h)[Handshake.KEY_LEN..], t := Second(h));
    if i < 2 then b0 else if i < 3 then b1 else if i < 4 then b2 else if i < 8 then b3
    else b3.(phase := 4, t := AfterLast(SecondMixed(h), Message3(h)), remote := h.ownA.s, parts := ReceivedParts(h))
  }

  /** The state in place of which there is an exception: Alice's options do not take the size she would
      announce; or Bob finds 17 or 18 bytes behind the last block he reads, or another key in the RouterInfo
      than in the handshake. The ninth state is never come to. */
  ghost function FailsAt(h: Setup): nat {
    if h.alice.parts.Total() > MAX_PART_TWO then 1
    else if 14 <= PadLen(h.alice.parts.pad) <= 15 || !KeyMatches(h.alice.parts.info, h.ownA.s) then 8
    else 9
  }

  /** The i-th state: who has done what, and exactly which bytes are on their way. */
  ghost function Expected(h: Setup, i: nat): Net
    requires h.Ready()
  {
    Net(Alice(h, i), Bob(h, i),
        if i == 1 then Header1(h) + h.alice.pad1
        else if i == 2 then h.alice.pad1
        else if i == 7 then Message3(h) else [],
        if i == 4 then Header2(h) + h.bob.pad2 else if i == 5 then h.bob.pad2 else [])
  }

  /** Whose turn it is in the i-th state. */
  predicate AliceMoves(i: nat) {
    i == 0 || i == 4 || i == 5 || i == 6
  }

  predicate BobMoves(i: nat) {
    i == 1 || i == 2 || i == 3 || i == 7
  }

  // ---------------------------------------------------------------- each turn

  /** Cutting a message's two parts out of a stream. */
  lemma Cut(a: Buffer, b: Buffer)
    ensures (a + b)[..|a|] == a && (a + b)[|a|..] == b
  {
  }

  lemma Whole(a: Buffer)
    ensures a[..|a|] == a && a[|a|..] == [] && [] + a == a && a + [] == a
  {
  }

  lemma CutText(d: Buffer, pad: Buffer)
    requires |d| == NOISE_SIZE
    ensures (d + pad)[Handshake.KEY_LEN..NOISE_SIZE] == d[Handshake.KEY_LEN..]
  {
  }

  /** Message three's reading, once all of it is there. */
  lemma ReadOutcome(p: Peer, d: Buffer, rest: Buffer, env: Env, x: Context)
    requires env.Valid() && p.c2 != [] && p.pad2 != [] && |d| == PART_ONE_SIZE + p.request.partTwo
    ensures var r := ConfirmedFrom(Mixes(p.t, p.c2, p.pad2), d, p.parts, env, x.lib);
      ReadConfirmed(p, d + rest, env, x) ==
        if r.None? || !KeyMatches(r.value.1.info, r.value.0) then Fails
        else Moves(p.(phase := 4, parts := r.value.1, remote := r.value.0, t := r.value.2), rest, [])
  {
    Cut(d, rest);
  }

  lemma RequestRead(p: Peer, e: Buffer, o: RequestOptions, buf: Buffer, pad: Buffer, now: u32, x: Context)
    requires x.Correct() && |e| == Handshake.KEY_LEN && |buf| == OPTIONS_SIZE
    requires o.Ok(now) && o.padLen as nat >= MIN_PADDING
    ensures var d := Header(p.t, e, EncodeRequest(o, buf), x.lib, x.k);
      |d| == NOISE_SIZE && var c := d[Handshake.KEY_LEN..];
      ReadRequest(p, d + pad, now, x) == Moves(p.(phase := 1, request := o, c1 := c, t := After(p.t, e, c)), pad, [])
  {
    var d := Header(p.t, e, EncodeRequest(o, buf), x.lib, x.k);
    HeaderBack(p.t, e, EncodeRequest(o, buf), x.lib, x.k);
    OptionsBack(o, CreatedOptions(0, 0), buf);
    Cut(d, pad);
    CutText(d, pad);
  }

  lemma CreatedRead(p: Peer, e: Buffer, o: CreatedOptions, buf: Buffer, pad: Buffer, now: u32, x: Context)
    requires x.Correct() && |e| == Handshake.KEY_LEN && |buf| == OPTIONS_SIZE
    requires o.Ok(now) && o.padLen as nat >= MIN_PADDING
    requires p.c1 != [] && p.pad1 != []
    ensures var t := Mixes(p.t, p.c1, p.pad1);
      var d := Header(t, e, EncodeCreated(o, buf), x.lib, x.k);
      |d| == NOISE_SIZE && var c := d[Handshake.KEY_LEN..];
      ReadCreated(p, d + pad, now, x) == Moves(p.(phase := 2, created := o, c2 := c, t := After(t, e, c)), pad, [])
  {
    var t := Mixes(p.t, p.c1, p.pad1);
    var d := Header(t, e, EncodeCreated(o, buf), x.lib, x.k);
    HeaderBack(t, e, EncodeCreated(o, buf), x.lib, x.k);
    OptionsBack(RequestOptions(0, 0, 0, 0), o, buf);
    Cut(d, pad);
    CutText(d, pad);
  }

  /** What message one's reader checks. */
  ghost predicate RequestOk(h: Setup, env: Env) {
    && h.Ready() && env.Valid() && h.alice.request.Ok(env.now)
    && MIN_PADDING <= |h.alice.pad1| == h.alice.request.padLen as nat
  }

  ghost predicate CreatedOk(h: Setup, env: Env) {
    && h.Ready() && env.Valid() && h.bob.created.Ok(env.now)
    && MIN_PADDING <= |h.bob.pad2| == h.bob.created.padLen as nat
  }

  lemma AliceSendsRequest(h: Setup, env: Env)
    requires RequestOk(h, env) && h.alice.phase == 0
    ensures Step(Expected(h, 0), true, env, h) == Some(Expected(h, 1))
  {
    Whole(Header1(h) + h.alice.pad1);
  }

  lemma BobReadsRequest(h: Setup, env: Env)
    requires RequestOk(h, env) && h.bob.phase == 0 && h.bob.t == h.alice.t
    ensures Step(Expected(h, 1), false, env, h) == Some(Expected(h, 2))
  {
    Whole([]);
    RequestRead(h.bob, h.ownA.e, h.alice.request, h.ownA.buf, h.alice.pad1, env.now, h.x);
  }

  lemma BobReadsPadding(h: Setup, env: Env)
    requires RequestOk(h, env)
    ensures Step(Expected(h, 2), false, env, h) == Some(Expected(h, 3))
  {
    Whole([]);
    Whole(h.alice.pad1);
  }

  lemma BobSendsCreated(h: Setup, env: Env)
    requires CreatedOk(h, env) && h.alice.pad1 != []
    ensures Step(Expected(h, 3), false, env, h) == Some(Expected(h, 4))
  {
    Whole(Header2(h) + h.bob.pad2);
  }

  lemma AliceReadsFixed(n: Net, p: Peer, rest: Buffer, env: Env, h: Setup)
    requires h.Ready() && env.Valid() && n.alice.phase == 1
    requires ReadCreated(n.alice, n.ba, env.now, h.x) == Moves(p, rest, [])
    ensures Step(n, true, env, h) == Some(n.(alice := p, ba := rest))
  {
    Whole(n.ab);
  }

  lemma CreatedStates(h: Setup)
    requires h.Ready()
    ensures Expected(h, 4) == Net(Alice(h, 4), Bob(h, 4), [], Header2(h) + h.bob.pad2)
    ensures Expected(h, 5) == Net(Alice(h, 5), Bob(h, 4), [], h.bob.pad2)
    ensures var (a, c) := (Alice(h, 4), Header2(h)[Handshake.KEY_LEN..]);
      && a.phase == 1 && a.c1 != [] && a.pad1 == h.alice.pad1 && Mixes(a.t, a.c1, a.pad1) == FirstMixed(h)
      && Alice(h, 5) == a.(phase := 2, created := h.bob.created, c2 := c, t := Second(h))
  {
  }

  lemma AliceReadsCreated(h: Setup, env: Env)
    requires CreatedOk(h, env) && h.alice.pad1 != []
    ensures Step(Expected(h, 4), true, env, h) == Some(Expected(h, 5))
  {
    CreatedStates(h);
    CreatedRead(Alice(h, 4), h.ownB.e, h.bob.created, h.ownB.buf, h.bob.pad2, env.now, h.x);
    AliceReadsFixed(Expected(h, 4), Alice(h, 5), h.bob.pad2, env, h);
  }

  lemma AliceReadsPadding(h: Setup, env: Env)
    requires CreatedOk(h, env)
    ensures Step(Expected(h, 5), true, env, h) == Some(Expected(h, 6))
  {
    Whole([]);
    Whole(h.bob.pad2);
  }

  lemma AliceSendsConfirmed(h: Setup, env: Env)
    requires h.Ready() && env.Valid() && h.bob.pad2 != []
    requires Sendable(h.alice.parts, h.ownA) && h.alice.parts.AllWritable()
    requires h.alice.request.partTwo as nat == h.alice.parts.Total() < 0x1_0000 - PART_ONE_SIZE
    ensures Step(Expected(h, 6), true, env, h) == Some(Expected(h, 7))
  {
    RenewedAcceptable(h.alice.parts, h.ownA, h.x.scheme);
    Whole(Message3(h));
  }

  /** Message three opens to the static key and the payload that were sealed. */
  lemma LastOpened(t: Transcript, p: Parts, s: Buffer, old_: Parts, env: Env, lib: Lib)
    requires lib.Correct() && env.Valid() && p.AllAcceptable() && |s| == Handshake.KEY_LEN
    requires MIN_PART_TWO <= p.Total() <= MAX_PART_TWO
    ensures var (d, r) := (LastMessage(t, EncodeParts(p), s, lib), ParseConfirmed(EncodeParts(p), old_, env));
      |d| == PART_ONE_SIZE + p.Total() && ConfirmedFrom(t, d, old_, env, lib)
        == if r.None? then None else Some((s, r.value, AfterLast(t, d)))
  {
    var c := lib.seal(t, s);
    Cut(c, lib.seal(t + [Sealed(c)], EncodeParts(p)));
  }

  lemma LastBack(t: Transcript, p: Parts, s: Buffer, old_: Parts, env: Env, lib: Lib)
    requires lib.Correct() && env.Valid() && p.AllAcceptable() && Readable(p.info, 0) && |s| == Handshake.KEY_LEN
    requires MIN_PART_TWO <= p.Total() <= MAX_PART_TWO
    ensures var (d, r) := (LastMessage(t, EncodeParts(p), s, lib), Received(p, old_));
      |d| == PART_ONE_SIZE + p.Total() && ConfirmedFrom(t, d, old_, env, lib)
        == if r.None? then None else Some((s, r.value, AfterLast(t, d)))
  {
    LastOpened(t, p, s, old_, env, lib);
    WithoutTail(p, old_, env);
  }

  /** Message three read, when it is all there is on the stream. */
  lemma ConfirmedRead(p: Peer, d: Buffer, sent: Parts, s: Buffer, env: Env, x: Context)
    requires env.Valid() && p.c2 != [] && p.pad2 != [] && |d| == PART_ONE_SIZE + p.request.partTwo
    requires var (t, r) := (Mixes(p.t, p.c2, p.pad2), Received(sent, p.parts));
      ConfirmedFrom(t, d, p.parts, env, x.lib) == if r.None? then None else Some((s, r.value, AfterLast(t, d)))
    ensures var (t, r) := (Mixes(p.t, p.c2, p.pad2), Received(sent, p.parts));
      ReadConfirmed(p, d, env, x) == if r.None? || !KeyMatches(sent.info, s) then Fails
        else Moves(p.(phase := 4, parts := r.value, remote := s, t := AfterLast(t, d)), [], [])
  {
    Whole(d);
    ReadOutcome(p, d, [], env, x);
  }

  lemma SentReadable(p: Parts, own: Own, s: Scheme)
    requires Sendable(p, own) && s.Correct() && Constructed(p)
    ensures var r := p.Renewed(own.infoDraw, own.padDraw, s);
      && r.AllAcceptable() && (Readable(r.info, 0) <==> InfoReadable(p)) && PadLen(r.pad) == PadLen(p.pad)
      && r.Total() == p.Total() >= MIN_PART_TWO && KeyMatches(r.info, own.s) == KeyMatches(p.info, own.s)
  {
    RenewedAcceptable(p, own, s);
    PayloadTotal(p);
  }

  /** What Alice sends is what message three's reader accepts. */
  ghost predicate ConfirmedOk(h: Setup, env: Env) {
    && h.Ready() && env.Valid() && h.bob.pad2 != [] && SentParts(h).AllAcceptable() && Readable(SentParts(h).info, 0)
    && MIN_PART_TWO <= SentParts(h).Total() <= MAX_PART_TWO && h.alice.request.partTwo as nat == SentParts(h).Total()
  }

  lemma BobTakesConfirmed(h: Setup, env: Env)
    requires ConfirmedOk(h, env)
    ensures ReadConfirmed(Bob(h, 7), Message3(h), env, h.x)
      == if Received(SentParts(h), h.bob.parts).None? || !KeyMatches(SentParts(h).info, h.ownA.s) then Fails
         else Moves(Bob(h, 8), [], [])
  {
    LastBack(SecondMixed(h), SentParts(h), h.ownA.s, h.bob.parts, env, h.x.lib);
    ConfirmedRead(Bob(h, 7), Message3(h), SentParts(h), h.ownA.s, env, h.x);
  }

  lemma BobReadsLast(n: Net, r: Turn, env: Env, h: Setup)
    requires h.Ready() && env.Valid() && n.bob.phase == 3 && n.ba == [] && r == ReadConfirmed(n.bob, n.ab, env, h.x)
    ensures Step(n, false, env, h) == match r
      case Waits => Some(n)
      case Fails => None
      case Moves(p, rest, out) => Some(n.(bob := p, ab := rest, ba := out))
  {
    if r.Moves? {
      Whole(r.out);
    }
  }

  lemma LastStates(h: Setup)
    requires h.Ready()
    ensures Bob(h, 7).phase == 3 && Expected(h, 7) == Net(Alice(h, 7), Bob(h, 7), Message3(h), [])
    ensures Expected(h, 8) == Net(Alice(h, 7), Bob(h, 8), [], [])
  {
  }

  lemma HonestOk(h: Setup, env: Env)
    requires h.Honest() && Timely(h, env)
    ensures CreatedOk(h, env) && (FailsAt(h) > 1 ==> RequestOk(h, env))
  {
    PayloadTotal(h.alice.parts);
  }

  /** The state a step leads to, unless there is an exception in its place. */
  ghost function Next(h: Setup, i: nat, moves: bool): Option<Net>
    requires h.Ready()
  {
    var j := if moves then i + 1 else i;
    if j == FailsAt(h) then None else Some(Expected(h, j))
  }

  lemma AliceWaits(h: Setup, i: nat, env: Env)
    requires h.Ready() && h.alice.phase == 0 && env.Valid() && i <= 8 && !AliceMoves(i)
    ensures Step(Expected(h, i), true, env, h) == Some(Expected(h, i))
  {
  }

  /** With too large a payload Alice's first turn fails. */
  lemma AliceRefuses(h: Setup, env: Env)
    requires h.Honest() && Timely(h, env) && FailsAt(h) == 1
    ensures Step(Expected(h, 0), true, env, h) == None
  {
  }

  lemma AliceExpected(h: Setup, i: nat, env: Env)
    requires h.Honest() && Timely(h, env) && i <= 8 && i < FailsAt(h)
    ensures Step(Expected(h, i), true, env, h) == Next(h, i, AliceMoves(i))
  {
    HonestOk(h, env);
    if !AliceMoves(i) { AliceWaits(h, i, env); }
    if i == 0 && FailsAt(h) == 1 { AliceRefuses(h, env); }
    if i == 0 && FailsAt(h) > 1 { AliceSendsRequest(h, env); }
    if i == 4 { AliceReadsCreated(h, env); }
    if i == 5 { AliceReadsPadding(h, env); }
    if i == 6 { AliceSendsConfirmed(h, env); }
  }

  lemma WhenLastFails(h: Setup)
    requires h.Ready() && Sendable(h.alice.parts, h.ownA) && FailsAt(h) > 7
    requires KeyMatches(SentParts(h).info, h.ownA.s) == KeyMatches(h.alice.parts.info, h.ownA.s)
    ensures (Received(SentParts(h), h.bob.parts).None? || !KeyMatches(SentParts(h).info, h.ownA.s)) <==> FailsAt(h) == 8
  {
  }

  lemma BobLast(h: Setup, env: Env)
    requires h.Honest() && Timely(h, env) && FailsAt(h) > 7 && InfoReadable(h.alice.parts)
    ensures Step(Expected(h, 7), false, env, h) == Next(h, 7, true)
  {
    SentReadable(h.alice.parts, h.ownA, h.x.scheme);
    BobTakesConfirmed(h, env);
    WhenLastFails(h);
    LastStates(h);
    BobReadsLast(Expected(h, 7), ReadConfirmed(Bob(h, 7), Message3(h), env, h.x), env, h);
  }

  ghost predicate Misread(h: Setup, n: Net) {
    n.alice.phase == n.bob.phase == 4 && n.bob.parts.info != SentParts(h).info
  }

  /** A RouterInfo that cannot be read back is an exception at Bob's, or he gets another one; and that is the end. */
  lemma BobMisreads(h: Setup, env: Env)
    requires h.Honest() && Timely(h, env) && FailsAt(h) > 7 && !InfoReadable(h.alice.parts)
    ensures var n := Step(Expected(h, 7), false, env, h);
      n.Some? ==> Misread(h, n.value)
  {
    var (p, d) := (SentParts(h), Message3(h));
    SentReadable(h.alice.parts, h.ownA, h.x.scheme);
    LastOpened(SecondMixed(h), p, h.ownA.s, h.bob.parts, env, h.x.lib);
    PartsMisread(p, h.bob.parts, env);
    LastStates(h);
    Whole(d);
    ReadOutcome(Bob(h, 7), d, [], env, h.x);
    BobReadsLast(Expected(h, 7), ReadConfirmed(Bob(h, 7), d, env, h.x), env, h);
  }

  lemma BobWaits(h: Setup, i: nat, env: Env)
    requires h.Ready() && h.bob.phase == 0 && env.Valid() && i <= 8 && !BobMoves(i)
    ensures Step(Expected(h, i), false, env, h) == Some(Expected(h, i))
  {
  }

  lemma BobExpected(h: Setup, i: nat, env: Env)
    requires h.Honest() && Timely(h, env) && i <= 8 && i < FailsAt(h) && (i < 7 || InfoReadable(h.alice.parts))
    ensures Step(Expected(h, i), false, env, h) == Next(h, i, BobMoves(i))
  {
    HonestOk(h, env);
    if !BobMoves(i) { BobWaits(h, i, env); }
    if i == 1 { BobReadsRequest(h, env); }
    if i == 2 { BobReadsPadding(h, env); }
    if i == 3 { BobSendsCreated(h, env); }
    if i == 7 { BobLast(h, env); }
  }

  predicate Moving(i: nat, alice: bool) {
    if alice then AliceMoves(i) else BobMoves(i)
  }

  /** In every state one peer's turn leads to the next, or to the exception in its place, and the other's, for
      want of input, changes nothing. */
  lemma StepExpected(h: Setup, i: nat, alice: bool, env: Env)
    requires h.Honest() && Timely(h, env) && i <= 8 && i < FailsAt(h)
    requires i < 7 || InfoReadable(h.alice.parts) || (i == 7 && alice)
    ensures Step(Expected(h, i), alice, env, h) == Next(h, i, Moving(i, alice))
  {
    if alice {
      AliceExpected(h, i, env);
    } else {
      BobExpected(h, i, env);
    }
  }

  // ---------------------------------------------------------------- every run

  datatype Event = Event(alice: bool, env: Env)

  ghost predicate AllTimely(h: Setup, run: seq<Event>) {
    run == [] || (Timely(h, run[0].env) && AllTimely(h, run[1..]))
  }

  /** Turns taken in the given order. */
  ghost function Run(n: Net, run: seq<Event>, h: Setup): Option<Net>
    requires h.Ready() && AllTimely(h, run)
    decreases |run|
  {
    if run == [] then Some(n)
    else match Step(n, run[0].alice, run[0].env, h)
      case None => None
      case Some(n') => Run(n', run[1..], h)
  }

  /** How far a run gets from the i-th state: turns out of turn do not count. */
  function Reached(i: nat, run: seq<Event>): (j: nat)
    requires i <= 8
    ensures i <= j <= 8
    decreases |run|
  {
    if run == [] then i
    else Reached(if Moving(i, run[0].alice) then i + 1 else i, run[1..])
  }

  /** After j effective turns: the j-th state; an exception, once the run has got to where there is one in place of
      the state; or, when Bob cannot read the RouterInfo, an exception or another RouterInfo at his. */
  ghost predicate Outcome(h: Setup, j: nat, r: Option<Net>)
    requires h.Ready()
  {
    if j < FailsAt(h) && (j < 8 || InfoReadable(h.alice.parts)) then r == Some(Expected(h, j))
    else if j < 8 || FailsAt(h) == 1 || InfoReadable(h.alice.parts) then r == None
    else r.Some? ==> Misread(h, r.value)
  }

  /** After the last turn of each, nothing changes any more. */
  lemma {:induction false} AllOver(n: Option<Net>, run: seq<Event>, h: Setup)
    requires h.Ready() && AllTimely(h, run)
    requires n.Some? ==> n.value.alice.phase == n.value.bob.phase == 4
    ensures n.Some? ==> Run(n.value, run, h) == n
    decreases |run|
  {
    if run != [] {
      AllOver(n, run[1..], h);
    }
  }

  lemma MisreadRun(h: Setup, run: seq<Event>)
    requires h.Honest() && AllTimely(h, run) && FailsAt(h) > 7 && !InfoReadable(h.alice.parts)
    requires run != [] && !run[0].alice
    ensures Outcome(h, 8, Run(Expected(h, 7), run, h))
  {
    BobMisreads(h, run[0].env);
    AllOver(Step(Expected(h, 7), false, run[0].env, h), run[1..], h);
  }

  lemma RunOn(h: Setup, i: nat, j: nat, run: seq<Event>)
    requires h.Ready() && run != [] && AllTimely(h, run) && i <= 8
    requires j == (if Moving(i, run[0].alice) then i + 1 else i) && i < FailsAt(h)
    requires Step(Expected(h, i), run[0].alice, run[0].env, h) == Next(h, i, Moving(i, run[0].alice))
    ensures Run(Expected(h, i), run, h) == if j == FailsAt(h) then None else Run(Expected(h, j), run[1..], h)
    ensures j <= 8 && Reached(i, run) == Reached(j, run[1..])
  {
  }

  lemma {:induction false} EveryRunFrom(h: Setup, i: nat, run: seq<Event>)
    requires h.Honest() && AllTimely(h, run) && i < FailsAt(h) && (i < 8 || (i == 8 && InfoReadable(h.alice.parts)))
    ensures Outcome(h, Reached(i, run), Run(Expected(h, i), run, h))
    decreases |run|
  {
    if run != [] {
      if i == 7 && !run[0].alice && !InfoReadable(h.alice.parts) {
        MisreadRun(h, run);
      } else {
        var j := if Moving(i, run[0].alice) then i + 1 else i;
        StepExpected(h, i, run[0].alice, run[0].env);
        RunOn(h, i, j, run);
        if j < FailsAt(h) {
          EveryRunFrom(h, j, run[1..]);
        }
      }
    }
  }

  /** In every run of an honest handshake, whatever the order of turns, the state is the one the number of
      effective turns calls for: each peer has read exactly the bytes the other wrote. There is an exception
      exactly when the run gets to where the payload's size, padding or key call for one; a RouterInfo that cannot
      be read back is never taken for the one sent. */
  lemma EveryHandshake(h: Setup, run: seq<Event>)
    requires h.Honest() && AllTimely(h, run)
    ensures Outcome(h, Reached(0, run), Run(Net(h.alice, h.bob, [], []), run, h))
  {
    EveryRunFrom(h, 0, run);
  }

  lemma ReceivedAll(p: Parts, old_: Parts)
    requires p.pad.Padding? && old_.pad == Padding([])
    ensures var k := PadLen(p.pad);
      Received(p, old_) == Some(p.(opt := Quantized(p.opt))) <==> k >= 16 || (k == 0 && old_.opt == Quantized(p.opt))
  {
  }

  lemma Verdict(h: Setup)
    requires h.Honest() && h.bob.parts.pad == Padding([])
    ensures var p := h.alice.parts;
      (FailsAt(h) > 8 && ReceivedParts(h) == SentParts(h).(opt := Quantized(p.opt)))
      <==> && KeyMatches(p.info, h.ownA.s)
           && Recoverable(p.info.info.value.Size(), PadLen(p.pad), h.bob.parts.opt == Quantized(p.opt))
  {
    PayloadTotal(h.alice.parts);
    SentReadable(h.alice.parts, h.ownA, h.x.scheme);
    ReceivedAll(SentParts(h), h.bob.parts);
  }

  lemma LastParts(h: Setup)
    requires h.Ready()
    ensures Expected(h, 8).bob.parts == ReceivedParts(h) && Expected(h, 8).alice.parts == SentParts(h)
  {
  }

  /** In every run with turns enough, message three is sent and Bob, who had no padding, recovers all its blocks
      exactly when its RouterInfo can be read back and names her static key, its size can be announced, and there
      are at least 16 bytes of padding, or none and no options but those Bob has. */
  lemma RecoversExactly(h: Setup, run: seq<Event>)
    requires h.Honest() && AllTimely(h, run) && Reached(0, run) == 8 && h.bob.parts.pad == Padding([])
    ensures var (p, r) := (h.alice.parts, Run(Net(h.alice, h.bob, [], []), run, h));
      (r.Some? && r.value.bob.parts == SentParts(h).(opt := Quantized(p.opt)))
      <==> && InfoReadable(p) && KeyMatches(p.info, h.ownA.s)
           && Recoverable(p.info.info.value.Size(), PadLen(p.pad), h.bob.parts.opt == Quantized(p.opt))
  {
    EveryHandshake(h, run);
    Verdict(h);
    LastParts(h);
  }

  /** When the RouterInfo can be read back and names a key of 32 bytes, a run with turns enough is an exception
      exactly when that is not the static key sent, or there are 14 or 15 bytes of padding. */
  lemma WrongKeyThrows(h: Setup, run: seq<Event>, k: Buffer)
    requires h.Honest() && AllTimely(h, run) && Reached(0, run) == 8
    requires InfoReadable(h.alice.parts) && h.alice.parts.Total() <= MAX_PART_TWO && |k| == 32
    requires Mappings.Lookup(h.alice.parts.info.info.value.options, KEY_S) == Codecs.Text(Codecs.Base64, k)
    ensures Run(Net(h.alice, h.bob, [], []), run, h) == None
      <==> k != h.ownA.s || |h.alice.parts.pad.padding| == 14 || |h.alice.parts.pad.padding| == 15
  {
    OtherKeyFails(h.alice.parts.info.flag, h.alice.parts.info.info.value, k, h.ownA.s);
    EveryHandshake(h, run);
  }

  /** With a RouterInfo of at most 65015 bytes, all is well, whatever the constructor draws. */
  lemma SmallRecovers(h: Setup, run: seq<Event>)
    requires h.Honest() && AllTimely(h, run) && Reached(0, run) == 8 && h.bob.parts.pad == Padding([])
    requires h.alice.parts.info.info.value.Size() <= MAX_CONFIRMED_PADDING
    requires Admits(h.alice.parts.info.info.value.Size(), PadLen(h.alice.parts.pad))
    requires InfoReadable(h.alice.parts) && KeyMatches(h.alice.parts.info, h.ownA.s)
    ensures var r := Run(Net(h.alice, h.bob, [], []), run, h);
      r.Some? && r.value.bob.parts == SentParts(h).(opt := Quantized(h.alice.parts.opt))
  {
    SmallEnough(h.alice.parts.info.info.value.Size());
    RecoversExactly(h, run);
  }

  /** A RouterInfo of 65016 bytes with 15 bytes of padding, which the constructor may draw: Alice sends message
      three, and Bob's reading it is an exception. */
  lemma BobThrows(h: Setup, run: seq<Event>)
    requires h.Honest() && AllTimely(h, run)
    requires h.alice.parts.info.info.value.Size() == 65016 && PadLen(h.alice.parts.pad) == 15
    requires InfoReadable(h.alice.parts)
    ensures Admits(65016, 15) && h.alice.parts.Total() == 65069
    ensures Run(Net(h.alice, h.bob, [], []), run, h)
      == if Reached(0, run) < 8 then Some(Expected(h, Reached(0, run))) else None
  {
    AdmitsExactly(65016, 15);
    PayloadTotal(h.alice.parts);
    EveryHandshake(h, run);
  }

  /** One of 65400 bytes with 50 bytes of padding: Alice cannot announce the size, and her first turn fails. */
  lemma AliceThrows(h: Setup, run: seq<Event>)
    requires h.Honest() && AllTimely(h, run)
    requires h.alice.parts.info.info.value.Size() == 65400 && PadLen(h.alice.parts.pad) == 50
    ensures Admits(65400, 50) && h.alice.parts.Total() == 65488
    ensures Reached(0, run) > 0 ==> Run(Net(h.alice, h.bob, [], []), run, h) == None
  {
    AdmitsExactly(65400, 50);
    PayloadTotal(h.alice.parts);
    EveryHandshake(h, run);
  }

  lemma Chain(t: Transcript, a: Item, b: Item, c: Item, d: Item, e: Item, f: Item, g: Item, h: Item, i: Item, j: Item)
    ensures t + [a, b] + [c, d] + [e, f] + [g, h] + [i, j] == t + [a, b, c, d, e, f, g, h, i, j]
  {
  }

  /** At the end both have mixed the same items in the same order, nothing is left on either stream, and Bob
      holds Alice's static key and what he received of the blocks she sent. */
  lemma Finished(h: Setup)
    requires h.Ready()
    ensures var n := Expected(h, 8);
      var (c1, c2, d) := (Header1(h)[Handshake.KEY_LEN..], Header2(h)[Handshake.KEY_LEN..], Message3(h));
      && n.ab == n.ba == [] && n.alice.t == n.bob.t
      && n.bob.t == h.alice.t + [Key(h.ownA.e), Sealed(c1), Mixed(c1), Mixed(h.alice.pad1),
                                 Key(h.ownB.e), Sealed(c2), Mixed(c2), Mixed(h.bob.pad2),
                                 Sealed(d[..PART_ONE_SIZE]), Sealed(d[PART_ONE_SIZE..])]
      && n.bob.request == h.alice.request && n.alice.created == h.bob.created && n.bob.remote == h.ownA.s
      && (FailsAt(h) == 9 ==> Received(n.alice.parts, h.bob.parts) == Some(n.bob.parts))
  {
    var (c1, c2, d) := (Header1(h)[Handshake.KEY_LEN..], Header2(h)[Handshake.KEY_LEN..], Message3(h));
    Chain(h.alice.t, Key(h.ownA.e), Sealed(c1), Mixed(c1), Mixed(h.alice.pad1), Key(h.ownB.e), Sealed(c2), Mixed(c2),
          Mixed(h.bob.pad2), Sealed(d[..PART_ONE_SIZE]), Sealed(d[PART_ONE_SIZE..]));
  }

  lemma Mixed4(t: Transcript, a: Item, b: Item, c: Item, d: Item, e: Item)
    ensures t + [a, b] + [c, d] + [e] == t + [a, b, c, d, e]
  {
  }

  lemma Mixed8(t: Transcript, a: Item, b: Item, c: Item, d: Item, e: Item, f: Item, g: Item, h: Item, i: Item)
    ensures t + [a, b] + [c, d] + [e, f] + [g, h] == t + [a, b, c, d, e, f, g, h]
    ensures t + [a, b, c, d, e, f, g, h] + [i] == t + [a, b, c, d, e, f, g, h, i]
  {
  }

  /** What each message is, and that each part of it is sealed under all that was mixed before it. */
  lemma SealedInOrder(h: Setup)
    requires h.Ready() && SentParts(h).AllAcceptable()
    ensures var (t, a, b, lib, k) := (h.alice.t, h.ownA.e, h.ownB.e, h.x.lib, h.x.k);
      var (c1, c2, s) := (Header1(h)[32..], Header2(h)[32..], Message3(h)[..48]);
      var mixed := t + [Key(a), Sealed(c1), Mixed(c1), Mixed(h.alice.pad1),
                        Key(b), Sealed(c2), Mixed(c2), Mixed(h.bob.pad2)];
      && Header1(h)[..32] == lib.encrypt(k, a) && Header2(h)[..32] == lib.encrypt(k, b)
      && c1 == lib.seal(t + [Key(a)], EncodeRequest(h.alice.request, h.ownA.buf))
      && c2 == lib.seal(t + [Key(a), Sealed(c1), Mixed(c1), Mixed(h.alice.pad1), Key(b)],
                        EncodeCreated(h.bob.created, h.ownB.buf))
      && s == lib.seal(mixed, h.ownA.s)
      && Message3(h)[48..] == lib.seal(mixed + [Sealed(s)], EncodeParts(SentParts(h)))
  {
    var (t, a, b, lib, k) := (h.alice.t, h.ownA.e, h.ownB.e, h.x.lib, h.x.k);
    var (c1, c2) := (Header1(h)[32..], Header2(h)[32..]);
    HeaderBack(t, a, EncodeRequest(h.alice.request, h.ownA.buf), lib, k);
    HeaderBack(FirstMixed(h), b, EncodeCreated(h.bob.created, h.ownB.buf), lib, k);
    Mixed4(t, Key(a), Sealed(c1), Mixed(c1), Mixed(h.alice.pad1), Key(b));
    Mixed8(t, Key(a), Sealed(c1), Mixed(c1), Mixed(h.alice.pad1), Key(b), Sealed(c2), Mixed(c2), Mixed(h.bob.pad2),
           Sealed(Message3(h)[..48]));
    var c := lib.seal(SecondMixed(h), h.ownA.s);
    Cut(c, lib.seal(SecondMixed(h) + [Sealed(c)], EncodeParts(SentParts(h))));
  }

  // ---------------------------------------------------------------- the class

  lemma SentConfirmed(p: Peer, q: Peer, own: Own, d: Buffer, x: Context)
    requires own.Valid() && x.Correct() && ReadyToSend(p, own)
    requires q.parts == p.parts.Renewed(own.infoDraw, own.padDraw, x.scheme) && q.parts.AllAcceptable()
    requires var t := Mixes(p.t, p.c2, p.pad2);
      && d == LastMessage(t, EncodeParts(q.parts), own.s, x.lib)
      && |d| >= PART_ONE_SIZE && q == p.(phase := 4, t := AfterLast(t, d), parts := q.parts)
    ensures SendConfirmed(p, [], own, x) == Moves(q, [], d)
  {
  }

  /** What passes does not name another key. */
  ghost predicate NoOtherKey(info: Block, s: Buffer) {
    && info.RouterInfo? && info.info.Some?
    && forall k: Buffer :: |k| == |s| && k != [] && k != s ==>
         Mappings.Lookup(info.info.value.options, KEY_S) != Codecs.Text(Codecs.Base64, k)
  }

  lemma MatchesNoOther(info: Block, s: Buffer)
    requires KeyMatches(info, s)
    ensures NoOtherKey(info, s)
  {
    forall k: Buffer | && |k| == |s| && k != []
                       && Mappings.Lookup(info.info.value.options, KEY_S) == Codecs.Text(Codecs.Base64, k)
      ensures k == s
    {
      OtherKeyFails(info.flag, info.info.value, k, s);
    }
  }

  /** Bob's last turn, by what reading message three came to; it fails before that for want of a text to mix. */
  lemma LastTurn(p: Peer, input: Buffer, q: Peer, r: Option<(Buffer, Parts, Transcript)>, ok: bool, env: Env,
                 x: Context)
    requires env.Valid() && |input| >= PART_ONE_SIZE + p.request.partTwo
    requires p.c2 != [] && p.pad2 != [] ==>
      r == ConfirmedFrom(Mixes(p.t, p.c2, p.pad2), input[..PART_ONE_SIZE + p.request.partTwo], p.parts, env, x.lib)
    requires ok <==> p.c2 != [] && p.pad2 != [] && r.Some? && KeyMatches(r.value.1.info, r.value.0)
    requires ok ==> q == p.(phase := 4, parts := r.value.1, remote := r.value.0, t := r.value.2)
    ensures ReadConfirmed(p, input, env, x)
      == if ok then Moves(q, input[PART_ONE_SIZE + p.request.partTwo..], []) else Fails
  {
    var n := PART_ONE_SIZE + p.request.partTwo;
    if p.c2 != [] && p.pad2 != [] {
      assert input == input[..n] + input[n..];
      ReadOutcome(p, input[..n], input[n..], env, x);
    }
  }

  method CheckKey(info: Block, s: Buffer) returns (ok: bool)
    ensures ok == KeyMatches(info, s)
    ensures ok ==> NoOtherKey(info, s)
  {
    if KeyMatches(info, s) {
      MatchesNoOther(info, s);
    }
    if !info.RouterInfo? || info.info.None? {
      return false;
    }
    var key := Codecs.Decode(Codecs.Base64, Mappings.ValueOf(info.info.value.options, KEY_S));
    ok := key.Data? && key.data <= s;
  }

  /** One peer's session: the handlers in the order they run, each one called once its bytes have arrived. */
  class Session {
    const x: Context
    const sha: Buffer -> Buffer
    const state: HandshakeState
    const srq: SessionRequestMessage
    const scr: SessionCreatedMessage
    const sco: SessionConfirmedMessage
    var phase: nat
    var remoteKey: Buffer

    ghost predicate Valid()
      reads this, state, srq, scr, sco
    {
      && x.Correct() && state.lib == x.lib
      && |srq.buffer| == |scr.buffer| == OPTIONS_SIZE
    }

    function Contents(): Peer
      reads this, state, srq, scr, sco
    {
      Peer(phase, state.t, srq.options, srq.ciphertext, srq.padding, scr.options, scr.ciphertext, scr.padding,
           sco.parts, remoteKey)
    }

    constructor (x: Context, sha: Buffer -> Buffer, state: HandshakeState, srq: SessionRequestMessage,
                 scr: SessionCreatedMessage, sco: SessionConfirmedMessage)
      requires x.Correct() && state.lib == x.lib && |srq.buffer| == |scr.buffer| == OPTIONS_SIZE
      ensures Valid() && phase == 0 && this.x == x && this.state == state
      ensures this.srq == srq && this.scr == scr && this.sco == sco
    {
      this.x, this.sha, this.state, this.srq, this.scr, this.sco := x, sha, state, srq, scr, sco;
      phase, remoteKey := 0, [];
    }

    method AliceRequest(e: Buffer, now: u32) returns (ok: bool, out: Buffer)
      requires Valid() && |e| == Handshake.KEY_LEN && |srq.padding| == srq.options.padLen
      modifies this`phase, state, srq
      ensures SendRequest(old(Contents()), [], e, old(srq.buffer), now, x)
        == if ok then Moves(Contents(), [], out) else Fails
      ensures ok ==> Valid()
    {
      ok := srq.Write(state, e, now, x.k);
      phase, out := 1, srq.data;
    }

    method BobRequest(input: Buffer, now: u32) returns (ok: bool)
      requires Valid() && |input| >= NOISE_SIZE
      modifies this`phase, state, srq
      ensures ReadRequest(old(Contents()), input, now, x)
        == if ok then Moves(Contents(), input[NOISE_SIZE..], []) else Fails
    {
      srq.data := input[..NOISE_SIZE];
      ok := srq.Read(state, now, x.k);
      assert srq.data[..NOISE_SIZE] == srq.data;
      assert srq.data[Handshake.KEY_LEN..NOISE_SIZE] == input[Handshake.KEY_LEN..NOISE_SIZE];
      phase := 1;
    }

    method BobRequestPadding(input: Buffer)
      requires |input| >= srq.options.padLen
      modifies this`phase, srq`padding
      ensures ReadRequestPadding(old(Contents()), input) == Moves(Contents(), input[srq.options.padLen..], [])
    {
      srq.padding := Resized(srq.padding, srq.options.padLen);
      srq.padding := input[..srq.options.padLen];
      phase := 2;
    }

    method BobCreated(e: Buffer, now: u32) returns (ok: bool, out: Buffer)
      requires Valid() && |e| == Handshake.KEY_LEN && |scr.padding| == scr.options.padLen
      modifies this`phase, state, scr
      ensures SendCreated(old(Contents()), [], e, old(scr.buffer), now, x)
        == if ok then Moves(Contents(), [], out) else Fails
      ensures ok ==> Valid()
    {
      ok := state.Derive(srq.ciphertext, srq.padding);
      out := [];
      if ok {
        ok := scr.Write(state, e, now, x.k);
        phase, out := 3, scr.data;
      }
    }

    method AliceCreated(input: Buffer, now: u32) returns (ok: bool)
      requires Valid() && |input| >= NOISE_SIZE
      modifies this`phase, state, scr
      ensures ReadCreated(old(Contents()), input, now, x)
        == if ok then Moves(Contents(), input[NOISE_SIZE..], []) else Fails
    {
      scr.data := input[..NOISE_SIZE];
      ok := state.Derive(srq.ciphertext, srq.padding);
      if ok {
        ok := scr.Read(state, now, x.k);
        assert scr.data[..NOISE_SIZE] == scr.data;
        assert scr.data[Handshake.KEY_LEN..NOISE_SIZE] == input[Handshake.KEY_LEN..NOISE_SIZE];
        phase := 2;
      }
    }

    method AliceCreatedPadding(input: Buffer)
      requires |input| >= scr.options.padLen
      modifies this`phase, scr`padding
      ensures ReadCreatedPadding(old(Contents()), input) == Moves(Contents(), input[scr.options.padLen..], [])
    {
      scr.padding := Resized(scr.padding, scr.options.padLen);
      scr.padding := input[..scr.options.padLen];
      phase := 3;
    }

    /** The blocks are serialized anew; their size must still be the one announced. */
    method AliceConfirmed(own: Own) returns (ok: bool, out: Buffer)
      requires Valid() && own.Valid() && Sendable(sco.parts, own)
      modifies this`phase, state, sco
      ensures SendConfirmed(old(Contents()), [], own, x) == if ok then Moves(Contents(), [], out) else Fails
    {
      ghost var p := Contents();
      out := [];
      ok := state.Derive(scr.ciphertext, scr.padding);
      if ok {
        ghost var e;
        ok, out, e := WriteConfirmed(own);
      }
      if ok {
        SentConfirmed(p, Contents(), own, out, x);
      }
    }

    method WriteConfirmed(own: Own) returns (ok: bool, out: Buffer, ghost e: Buffer)
      requires Valid() && own.Valid() && Sendable(sco.parts, own)
      modifies this`phase, state, sco
      ensures ok <==> && old(sco.parts).AllWritable() && old(sco.parts).Total() < 0x1_0000 - PART_ONE_SIZE
                      && srq.options.partTwo as nat == old(sco.parts).Total()
      ensures ok ==> sco.parts == old(sco.parts).Renewed(own.infoDraw, own.padDraw, x.scheme)
      ensures ok ==> sco.parts.AllAcceptable() && e == EncodeParts(sco.parts)
      ensures ok ==> out == LastMessage(old(state.t), e, own.s, x.lib) && |out| >= PART_ONE_SIZE && phase == 4
      ensures ok ==> state.t == AfterLast(old(state.t), out)
    {
      out, e := [], [];
      ghost var n := sco.parts.Total();
      ok, e := sco.Serialize(own.infoDraw, own.padDraw, sha, x.scheme);
      if ok {
        ok, out := SealConfirmed(own.s, e);
        assert ok <==> srq.options.partTwo as nat == n < 0x1_0000 - PART_ONE_SIZE;
      }
    }

    /** The payload has just been given its size. */
    method SealConfirmed(s: Buffer, ghost e: Buffer) returns (ok: bool, out: Buffer)
      requires Valid() && |s| == Handshake.KEY_LEN
      requires ConfirmedMessages.MAC_LEN <= |sco.payload| < 0x1_0000
      requires e == sco.payload[..|sco.payload| - ConfirmedMessages.MAC_LEN]
      requires |sco.data| >= PART_ONE_SIZE + |sco.payload| <==> |sco.payload| < 0x1_0000 - PART_ONE_SIZE
      modifies this`phase, state, sco`data
      ensures ok <==> srq.options.partTwo as nat == |sco.payload| < 0x1_0000 - PART_ONE_SIZE
      ensures ok ==> out == LastMessage(old(state.t), e, s, x.lib)
      ensures ok ==> |out| >= PART_ONE_SIZE && state.t == AfterLast(old(state.t), out) && phase == 4
    {
      out := [];
      var n := |sco.payload|;
      ok := srq.options.partTwo == n && |sco.data| >= PART_ONE_SIZE + n;
      if ok {
        ghost var c := x.lib.seal(state.t, s);
        Cut(c, x.lib.seal(state.t + [Sealed(c)], e));
        out := state.WriteLast(s, sco.payload[..n - ConfirmedMessages.MAC_LEN]);
        sco.data, phase := out, 4;
      }
    }

    method BobConfirmed(input: Buffer, env: Env) returns (ok: bool)
      requires Valid() && NewObject(env) && |input| >= PART_ONE_SIZE + srq.options.partTwo
      modifies this`phase, this`remoteKey, state, sco
      ensures ReadConfirmed(old(Contents()), input, env, x)
        == if ok then Moves(Contents(), input[PART_ONE_SIZE + srq.options.partTwo..], []) else Fails
      ensures ok ==> NoOtherKey(sco.parts.info, remoteKey)
    {
      ghost var (p, r) := (Contents(), None);
      sco.data := input[..PART_ONE_SIZE + srq.options.partTwo];
      ok := state.Derive(scr.ciphertext, scr.padding);
      phase := 4;
      if ok {
        ok, r := OpenAndCheck(env);
      }
      LastTurn(p, input, Contents(), r, ok, env, x);
    }

    method OpenAndCheck(env: Env) returns (ok: bool, ghost r: Option<(Buffer, Parts, Transcript)>)
      requires Valid() && NewObject(env)
      modifies this`remoteKey, state, sco
      ensures sco.data == old(sco.data)
      ensures r == ConfirmedFrom(old(state.t), sco.data, old(sco.parts), env, x.lib)
      ensures ok <==> r.Some? && KeyMatches(r.value.1.info, r.value.0)
      ensures ok ==> r == Some((remoteKey, sco.parts, state.t)) && NoOtherKey(sco.parts.info, remoteKey)
    {
      r := ConfirmedFrom(state.t, sco.data, sco.parts, env, x.lib);
      ok := OpenConfirmed(env);
      if ok {
        ok := CheckKey(sco.parts.info, remoteKey);
      }
    }

    method OpenConfirmed(env: Env) returns (ok: bool)
      requires Valid() && NewObject(env)
      modifies this`remoteKey, state, sco
      ensures sco.data == old(sco.data)
      ensures ConfirmedFrom(old(state.t), sco.data, old(sco.parts), env, x.lib)
        == if ok then Some((remoteKey, sco.parts, state.t)) else None
    {
      if |sco.data| < MIN_CONFIRMED || |sco.data| > MAX_CONFIRMED {
        return false;
      }
      var r := state.ReadLast(sco.data);
      if r.None? {
        return false;
      }
      remoteKey, sco.payload := r.value.0, r.value.1;
      ok := sco.Deserialize(env, sha, x.scheme);
    }
  }
}
