/** Two peers of a data phase over two channels that keep order, in any interleaving of writes and reads. */
module Lockstep {
  import opened Bytes
  import opened Infos
  import opened Blocks
  import opened BlockOrder
  import opened BlockIO
  import opened DataMessages
  import opened DataPhases

  // ---------------------------------------------------------------- one frame

  /** The largest total size whose frame can be read: the length field is tested as a signed number. */
  const MAX_READABLE: nat := 0x7FFF

  lemma OpenBody(h: Half, f: Buffer, e: Buffer, env: Env, c: Crypto)
    requires c.Correct() && env.Valid() && 0 < |e| <= MAX_READABLE && |f| == SIZE_LEN + |e| + MAC_LEN
    requires f[SIZE_LEN..SIZE_LEN + |e| + MAC_LEN] == c.seal(h.cipher.key, h.cipher.nonce, e)
    ensures OpenFrame(h, f, |e| + MAC_LEN, env, c) == Parsed(h.Used(), ParseBlocks(e + f[SIZE_LEN + |e|..], env, []))
  {
    var n := |e| + MAC_LEN;
    ToTheEnd(f, SIZE_LEN + |e|, SIZE_LEN + n);
    PartOf(f, SIZE_LEN, n, |e|);
    assert n - MAC_LEN == |e| && Int16(n - MAC_LEN) > 0;
    assert c.open(h.cipher.key, h.cipher.nonce, f[SIZE_LEN..SIZE_LEN + n]) == Some(e);
  }

  lemma FrameBody(h: Half, e: Buffer, c: Crypto)
    requires c.Correct() && |e| < 0x1_0000 - MAC_LEN
    ensures var (f, n) := (Frame(h, e, c), |e| + MAC_LEN);
      && |f| == SIZE_LEN + n && f[SIZE_LEN..SIZE_LEN + n] == c.seal(h.cipher.key, h.cipher.nonce, e)
      && f[SIZE_LEN + n - MAC_LEN..SIZE_LEN + n] == f[SIZE_LEN + |e|..]
  {
  }

  lemma OpenReadable(h: Half, h': Half, e: Buffer, env: Env, c: Crypto)
    requires c.Correct() && env.Valid() && 0 < |e| <= MAX_READABLE && h'.cipher == h.cipher
    ensures var f := Frame(h, e, c);
      |f| == SIZE_LEN + |e| + MAC_LEN
      && OpenFrame(h', f, |e| + MAC_LEN, env, c) == Parsed(h'.Used(), ParseBlocks(e + f[SIZE_LEN + |e|..], env, []))
  {
    FrameBody(h, e, c);
    OpenBody(h', Frame(h, e, c), e, env, c);
  }

  lemma FrameLength(h: Half, e: Buffer, c: Crypto)
    requires c.Correct()
    ensures var (f, n) := (Frame(h, e, c), (|e| + MAC_LEN) % 0x1_0000);
      |f| == SIZE_LEN + Max(n, |e|) && XorLength(FromBE16(f[..2]), h.Mask(c)) == n
  {
    var n := (|e| + MAC_LEN) % 0x1_0000;
    PlainLength(n, |e|);
    UnmaskLength(n, h.Mask(c));
    assert Frame(h, e, c)[..2] == BE16(XorLength(n, h.Mask(c)));
  }

  lemma SmallFrame(h: Half, e: Buffer, env: Env, c: Crypto)
    requires c.Correct() && env.Valid() && 0 < |e| <= MAX_READABLE
    ensures var f := Frame(h, e, c);
      && |f| == SIZE_LEN + |e| + MAC_LEN
      && ReadFrame(h, f, true, env, c)
         == Parsed(h.Masked(c).Used(), ParseBlocks(e + f[SIZE_LEN + |e|..], env, []))
  {
    FrameLength(h, e, c);
    OpenReadable(h, h.Masked(c), e, env, c);
  }

  lemma SignedLength(n: nat)
    requires n % 0x1_0000 != 0 && n < 0x1_0000
    ensures Int16((n + MAC_LEN) % 0x1_0000 - MAC_LEN) > 0 <==> n <= MAX_READABLE
  {
  }

  lemma LargeFrame(h: Half, e: Buffer, env: Env, c: Crypto)
    requires c.Correct() && env.Valid() && |e| % 0x1_0000 != 0 && MAX_READABLE < |e| <= MAX_MESSAGE
    ensures ReadFrame(h, Frame(h, e, c), true, env, c) == if |e| < 0x1_0000 then Dropped(h.Masked(c)) else Unread
  {
    FrameLength(h, e, c);
    PlainLength((|e| + MAC_LEN) % 0x1_0000, |e|);
    if |e| < 0x1_0000 {
      SignedLength(|e|);
    }
  }

  /** What becomes of a frame at a receiver in the sender's state, by the size of what it carries: a total that
      is not a multiple of 65536, as writing demands, and that a message can have. */
  lemma FrameFate(h: Half, e: Buffer, env: Env, c: Crypto)
    requires c.Correct() && env.Valid() && |e| % 0x1_0000 != 0 && |e| <= MAX_MESSAGE
    ensures var (f, r) := (Frame(h, e, c), ReadFrame(h, Frame(h, e, c), true, env, c));
      if |e| <= MAX_READABLE then
        && |f| == SIZE_LEN + |e| + MAC_LEN
        && r == Parsed(h.Masked(c).Used(), ParseBlocks(e + f[SIZE_LEN + |e|..], env, []))
      else if |e| < 0x1_0000 then r == Dropped(h.Masked(c))
      else r == Unread
  {
    if |e| <= MAX_READABLE {
      SmallFrame(h, e, env, c);
    } else {
      LargeFrame(h, e, env, c);
    }
  }

  lemma {:induction false} EncodeAnyTime(blocks: seq<Block>, now: u32, later: u32)
    requires AllAcceptable(blocks, now) && AllAcceptable(blocks, later)
    ensures EncodeBlocks(blocks, now) == EncodeBlocks(blocks, later)
  {
    if blocks != [] {
      EncodeAnyTime(blocks[1..], now, later);
    }
  }

  /** A receiver in the sender's state recovers the blocks, and moves to the sender's next state, exactly when
      the total size is at most 32767. */
  lemma Recovered(h: Half, blocks: seq<Block>, now: u32, env: Env, c: Crypto)
    requires c.Correct() && env.Valid() && AllAcceptable(blocks, now) && AllReadable(blocks, env.now)
    requires DataOrder(Types(blocks)) && TotalSize(blocks) % 0x1_0000 != 0 && TotalSize(blocks) <= MAX_MESSAGE
    ensures ReadFrame(h, Frame(h, EncodeBlocks(blocks, now), c), true, env, c)
      == Got(h.Masked(c).Used(), QuantizedAll(blocks))
      <==> TotalSize(blocks) <= MAX_READABLE
  {
    var e := EncodeBlocks(blocks, now);
    FrameFate(h, e, env, c);
    if |e| <= MAX_READABLE {
      EncodeAnyTime(blocks, now, env.now);
      MessageBack(blocks, env, Frame(h, e, c)[SIZE_LEN + |e|..]);
    }
  }

  // ---------------------------------------------------------------- the two peers

  datatype Message = Message(blocks: seq<Block>, now: u32)

  /** One direction's channel, everything written to it and read from it, and what went wrong: masks used by
      failed writes, frames refused unread, and frames that never reached the cipher. */
  datatype Lane = Lane(flight: seq<Buffer>, sent: seq<Message>, got: seq<seq<Block>>, burned: nat, unread: nat,
                       lost: nat)

  /** Bob is the initiator, Alice the responder. */
  datatype Net = Net(bob: Keys, alice: Keys, ab: Lane, ba: Lane)
  {
    function Peer(role: Role): Keys {
      if role.Initiator? then bob else alice
    }

    function WithPeer(role: Role, k: Keys): Net {
      if role.Initiator? then this.(bob := k) else this.(alice := k)
    }

    function Channel(dir: Dir): Lane {
      if dir.AliceToBob? then ab else ba
    }

    function WithChannel(dir: Dir, l: Lane): Net {
      if dir.AliceToBob? then this.(ab := l) else this.(ba := l)
    }
  }

  datatype Action = Write(role: Role, blocks: seq<Block>, draws: seq<Draw>, now: u32) | Read(role: Role, env: Env)
  {
    ghost predicate Valid() {
      if Write? then UsableAll(blocks, draws) else env.Valid()
    }

    function Direction(): Dir {
      if Write? then WriteDir(role) else ReadDir(role)
    }
  }

  ghost predicate AllValid(acts: seq<Action>) {
    acts == [] || (acts[0].Valid() && AllValid(acts[1..]))
  }

  ghost function Pushed(l: Lane, w: Writing, now: u32): Lane {
    match w
    case Rejected => l
    case Burned(_) => l.(burned := l.burned + 1)
    case Sent(_, blocks, frame) => l.(flight := l.flight + [frame], sent := l.sent + [Message(blocks, now)])
  }

  ghost function Popped(l: Lane, r: Reading, h: Half): Lane
    requires l.flight != []
  {
    l.(flight := l.flight[1..],
       got := if r.Got? then l.got + [r.blocks] else l.got,
       unread := if r.Unread? then l.unread + 1 else l.unread,
       lost := if r.After(h).cipher == h.cipher then l.lost + 1 else l.lost)
  }

  /** A peer writes a message of its own, or reads the oldest frame sent to it, if there is one. */
  ghost function Step(net: Net, a: Action, c: Crypto, s: Scheme): Net
    requires a.Valid() && c.Correct() && s.Correct()
  {
    var (dir, k) := (a.Direction(), net.Peer(a.role));
    var l := net.Channel(dir);
    if a.Write? then
      var w := WriteFrame(k.Of(dir), a.blocks, a.draws, a.now, c, s);
      net.WithPeer(a.role, k.With(dir, w.After(k.Of(dir)))).WithChannel(dir, Pushed(l, w, a.now))
    else if l.flight == [] then net
    else
      var r := ReadFrame(k.Of(dir), l.flight[0], true, a.env, c);
      net.WithPeer(a.role, k.With(dir, r.After(k.Of(dir)))).WithChannel(dir, Popped(l, r, k.Of(dir)))
  }

  ghost function Run(net: Net, acts: seq<Action>, c: Crypto, s: Scheme): Net
    requires AllValid(acts) && c.Correct() && s.Correct()
    decreases |acts|
  {
    if acts == [] then net else Run(Step(net, acts[0], c, s), acts[1..], c, s)
  }

  // ---------------------------------------------------------------- one direction on its own

  datatype Link = Link(sender: Half, receiver: Half, lane: Lane)

  ghost function LinkStep(k: Link, a: Action, c: Crypto, s: Scheme): Link
    requires a.Valid() && c.Correct() && s.Correct()
  {
    if a.Write? then
      var w := WriteFrame(k.sender, a.blocks, a.draws, a.now, c, s);
      Link(w.After(k.sender), k.receiver, Pushed(k.lane, w, a.now))
    else if k.lane.flight == [] then k
    else
      var r := ReadFrame(k.receiver, k.lane.flight[0], true, a.env, c);
      Link(k.sender, r.After(k.receiver), Popped(k.lane, r, k.receiver))
  }

  ghost function LinkRun(k: Link, acts: seq<Action>, c: Crypto, s: Scheme): Link
    requires AllValid(acts) && c.Correct() && s.Correct()
    decreases |acts|
  {
    if acts == [] then k else LinkRun(LinkStep(k, acts[0], c, s), acts[1..], c, s)
  }

  function Writer(dir: Dir): Role {
    if dir.BobToAlice? then Initiator else Responder
  }

  function Reader(dir: Dir): Role {
    if dir.BobToAlice? then Responder else Initiator
  }

  function View(net: Net, dir: Dir): Link {
    Link(net.Peer(Writer(dir)).Of(dir), net.Peer(Reader(dir)).Of(dir), net.Channel(dir))
  }

  function Only(acts: seq<Action>, dir: Dir): seq<Action> {
    if acts == [] then [] else (if acts[0].Direction() == dir then [acts[0]] else []) + Only(acts[1..], dir)
  }

  lemma OnlyFirst(acts: seq<Action>, dir: Dir)
    requires acts != []
    ensures var (o, t) := (Only(acts, dir), Only(acts[1..], dir));
      if acts[0].Direction() == dir then o != [] && o[0] == acts[0] && o[1..] == t else o == t
  {
  }

  lemma {:induction false} OnlyValid(acts: seq<Action>, dir: Dir)
    requires AllValid(acts)
    ensures AllValid(Only(acts, dir))
  {
    if acts != [] {
      OnlyValid(acts[1..], dir);
      OnlyFirst(acts, dir);
    }
  }

  lemma StepView(net: Net, a: Action, dir: Dir, c: Crypto, s: Scheme)
    requires a.Valid() && c.Correct() && s.Correct()
    ensures View(Step(net, a, c, s), dir)
      == if a.Direction() == dir then LinkStep(View(net, dir), a, c, s) else View(net, dir)
  {
  }

  /** In any run, what happens in one direction is what its own steps alone would do: the other direction's
      steps, whatever they are and however they are interleaved, make no difference. */
  lemma {:induction false} DirectionsIndependent(net: Net, acts: seq<Action>, dir: Dir, c: Crypto, s: Scheme)
    requires AllValid(acts) && c.Correct() && s.Correct()
    ensures AllValid(Only(acts, dir))
    ensures View(Run(net, acts, c, s), dir) == LinkRun(View(net, dir), Only(acts, dir), c, s)
    decreases |acts|
  {
    OnlyValid(acts, dir);
    if acts != [] {
      StepView(net, acts[0], dir, c, s);
      DirectionsIndependent(Step(net, acts[0], c, s), acts[1..], dir, c, s);
      OnlyFirst(acts, dir);
    }
  }

  // ---------------------------------------------------------------- positions, in every run

  /** The IV after i masks: the first eight bytes of the digest of the one before. */
  ghost function Chain(key: Buffer, iv: Buffer, i: nat, c: Crypto): Buffer
    requires c.Correct()
  {
    if i == 0 then iv else c.sip(key, Chain(key, iv, i - 1, c))[..8]
  }

  lemma {:induction false} ChainOn(key: Buffer, iv: Buffer, m: nat, n: nat, c: Crypto)
    requires c.Correct()
    ensures Chain(key, Chain(key, iv, m, c), n, c) == Chain(key, iv, m + n, c)
  {
    if n > 0 {
      ChainOn(key, iv, m, n - 1, c);
    }
  }

  /** The state after m masks and n uses of the cipher. */
  ghost function Ahead(h: Half, m: nat, n: nat, c: Crypto): Half
    requires c.Correct()
  {
    Half(h.sipKey, Chain(h.sipKey, h.iv, m, c), Cipher(h.cipher.key, h.cipher.nonce + n))
  }

  /** Where both ends of a direction are, counted from the keys they started with. */
  ghost predicate Positions(k: Link, h: Half, c: Crypto)
    requires c.Correct()
  {
    var l := k.lane;
    var taken := |l.sent| - |l.flight|;
    && 0 <= l.unread <= l.lost <= taken
    && k.sender == Ahead(h, |l.sent| + l.burned, |l.sent|, c)
    && k.receiver == Ahead(h, taken - l.unread, taken - l.lost, c)
  }

  lemma WriteMoves(h: Half, blocks: seq<Block>, draws: seq<Draw>, now: u32, c: Crypto, s: Scheme)
    requires UsableAll(blocks, draws) && c.Correct() && s.Correct()
    ensures var w := WriteFrame(h, blocks, draws, now, c, s);
      w.After(h) == if w.Rejected? then h else if w.Burned? then h.Masked(c) else h.Masked(c).Used()
  {
  }

  lemma ReadMoves(h: Half, frame: Buffer, env: Env, c: Crypto)
    requires env.Valid() && c.Correct()
    ensures var r := ReadFrame(h, frame, true, env, c);
      r.After(h) == if r.Unread? then h else if r.After(h).cipher == h.cipher then h.Masked(c) else h.Masked(c).Used()
  {
  }

  lemma PushedPositions(k: Link, w: Writing, now: u32, h: Half, c: Crypto)
    requires c.Correct() && Positions(k, h, c)
    requires w.After(k.sender)
      == if w.Rejected? then k.sender else if w.Burned? then k.sender.Masked(c) else k.sender.Masked(c).Used()
    ensures Positions(Link(w.After(k.sender), k.receiver, Pushed(k.lane, w, now)), h, c)
  {
  }

  lemma PoppedPositions(k: Link, r: Reading, h: Half, c: Crypto)
    requires c.Correct() && Positions(k, h, c) && k.lane.flight != []
    requires var h' := r.After(k.receiver);
      h' == if r.Unread? then k.receiver
            else if h'.cipher == k.receiver.cipher then k.receiver.Masked(c) else k.receiver.Masked(c).Used()
    ensures Positions(Link(k.sender, r.After(k.receiver), Popped(k.lane, r, k.receiver)), h, c)
  {
  }

  lemma PositionsKept(k: Link, a: Action, h: Half, c: Crypto, s: Scheme)
    requires a.Valid() && c.Correct() && s.Correct() && Positions(k, h, c)
    ensures Positions(LinkStep(k, a, c, s), h, c)
  {
    if a.Write? {
      WriteMoves(k.sender, a.blocks, a.draws, a.now, c, s);
      PushedPositions(k, WriteFrame(k.sender, a.blocks, a.draws, a.now, c, s), a.now, h, c);
    } else if k.lane.flight != [] {
      ReadMoves(k.receiver, k.lane.flight[0], a.env, c);
      PoppedPositions(k, ReadFrame(k.receiver, k.lane.flight[0], true, a.env, c), h, c);
    }
  }

  /** In every run, with any messages: the sender's IV is ahead of the receiver's by exactly the frames in
      flight, the failed writes and the frames refused unread; its nonce is ahead by exactly the frames in
      flight and the frames lost. */
  lemma {:induction false} EveryRunPositions(k: Link, acts: seq<Action>, h: Half, c: Crypto, s: Scheme)
    requires AllValid(acts) && c.Correct() && s.Correct() && Positions(k, h, c)
    ensures Positions(LinkRun(k, acts, c, s), h, c)
    decreases |acts|
  {
    if acts != [] {
      PositionsKept(k, acts[0], h, c, s);
      EveryRunPositions(LinkStep(k, acts[0], c, s), acts[1..], h, c, s);
    }
  }

  /** What a frame made in a state looks like: the length, in 16 bits, under the first two bytes of the digest;
      then the bytes, sealed, or all but the last 16 when the length wraps. */
  ghost predicate Wire(f: Buffer, h: Half, e: Buffer, c: Crypto)
    requires c.Correct()
  {
    && |f| >= 2 && FirstTwo(f) == XorLength((|e| + 16) % 0x1_0000, FirstTwo(c.sip(h.sipKey, h.iv)))
    && f[2..] == c.seal(h.cipher.key, h.cipher.nonce, if |e| < 65520 then e else e[..|e| - 16])
  }

  lemma FrameOnWire(h: Half, e: Buffer, c: Crypto)
    requires c.Correct() && |e| <= 65537
    ensures Wire(Frame(h, e, c), h, e, c)
  {
    var f := Frame(h, e, c);
    FirstTwoBytes(f);
    FirstTwoBytes(c.sip(h.sipKey, h.iv));
    assert f[..2] == BE16(XorLength((|e| + MAC_LEN) % 0x1_0000, h.Mask(c)));
  }

  lemma SentOnWire(h: Half, blocks: seq<Block>, draws: seq<Draw>, now: u32, c: Crypto, s: Scheme)
    requires UsableAll(blocks, draws) && c.Correct() && s.Correct()
    ensures var w := WriteFrame(h, blocks, draws, now, c, s);
      w.Sent? ==> AllAcceptable(w.blocks, now) && Wire(w.frame, h, EncodeBlocks(w.blocks, now), c)
  {
    if WriteFrame(h, blocks, draws, now, c, s).Sent? {
      WriteOutcome(h, blocks, draws, now, c, s);
      FrameOnWire(h, EncodeBlocks(WriteFrame(h, blocks, draws, now, c, s).blocks, now), c);
    }
  }

  /** A message and its frame, made in the given state. */
  ghost predicate Made(f: Buffer, h: Half, m: Message, c: Crypto)
    requires c.Correct()
  {
    AllAcceptable(m.blocks, m.now) && Wire(f, h, EncodeBlocks(m.blocks, m.now), c)
  }

  /** In every run a write leaves the channel alone, costs a mask, or sends a frame under the mask and the nonce of
      its place: one mask for each message sent and each failed write before it, one nonce for each message sent. */
  lemma EveryFrame(k: Link, a: Action, h: Half, c: Crypto, s: Scheme)
    requires a.Write? && a.Valid() && c.Correct() && s.Correct() && Positions(k, h, c)
    ensures var (l, w) := (k.lane, WriteFrame(k.sender, a.blocks, a.draws, a.now, c, s));
      && LinkStep(k, a, c, s).lane == Pushed(l, w, a.now) && k.sender == Ahead(h, |l.sent| + l.burned, |l.sent|, c)
      && (w.Sent? ==> Made(w.frame, k.sender, Message(w.blocks, a.now), c))
  {
    SentOnWire(k.sender, a.blocks, a.draws, a.now, c, s);
  }

  // ---------------------------------------------------------------- lockstep

  /** A message that can be written, and whose frame can be read. */
  ghost predicate Deliverable(blocks: seq<Block>, now: u32) {
    0 < TotalSize(blocks) <= MAX_READABLE && DataOrder(Types(blocks)) && WritableAll(blocks, now)
  }

  /** What a caller sees to before a step: a message deliverable or refused outright (an empty one, say); and
      when a frame is read, its blocks are still timely. */
  ghost predicate Fits(k: Link, a: Action) {
    if a.Write? then Deliverable(a.blocks, a.now) || TotalSize(a.blocks) % 0x1_0000 == 0
    else
      k.lane.flight != [] ==>
        |k.lane.got| < |k.lane.sent| && AllReadable(k.lane.sent[|k.lane.got|].blocks, a.env.now)
  }

  ghost predicate Smooth(k: Link, acts: seq<Action>, c: Crypto, s: Scheme)
    requires AllValid(acts) && c.Correct() && s.Correct()
    decreases |acts|
  {
    acts == [] || (Fits(k, acts[0]) && Smooth(LinkStep(k, acts[0], c, s), acts[1..], c, s))
  }

  ghost predicate Carried(m: Message) {
    AllAcceptable(m.blocks, m.now) && DataOrder(Types(m.blocks)) && 0 < TotalSize(m.blocks) <= MAX_READABLE
  }

  /** The frames in flight are those of the messages pending, each made in the state the receiver will be in
      when it comes to it; after the last one the receiver will be in the sender's state. */
  ghost predicate InStep(receiver: Half, flight: seq<Buffer>, pending: seq<Message>, sender: Half, c: Crypto)
    requires c.Correct()
    decreases |flight|
  {
    if flight == [] then pending == [] && receiver == sender
    else
      && pending != [] && Carried(pending[0])
      && flight[0] == Frame(receiver, EncodeBlocks(pending[0].blocks, pending[0].now), c)
      && InStep(receiver.Masked(c).Used(), flight[1..], pending[1..], sender, c)
  }

  lemma RestOfLonger<T>(s: seq<T>, x: T)
    ensures (s + [x])[1..] == (if s == [] then [] else s[1..] + [x]) && (s + [x])[0] == if s == [] then x else s[0]
  {
  }

  lemma {:induction false} InStepPush(receiver: Half, flight: seq<Buffer>, pending: seq<Message>, sender: Half,
                                      m: Message, c: Crypto)
    requires c.Correct() && InStep(receiver, flight, pending, sender, c) && Carried(m)
    ensures InStep(receiver, flight + [Frame(sender, EncodeBlocks(m.blocks, m.now), c)], pending + [m],
                   sender.Masked(c).Used(), c)
    decreases |flight|
  {
    var f := Frame(sender, EncodeBlocks(m.blocks, m.now), c);
    RestOfLonger(flight, f);
    RestOfLonger(pending, m);
    if flight != [] {
      InStepPush(receiver.Masked(c).Used(), flight[1..], pending[1..], sender, m, c);
    }
  }

  /** What was read is, message by message, what was written. */
  ghost predicate AllGot(got: seq<seq<Block>>, sent: seq<Message>) {
    |got| <= |sent| && forall i :: 0 <= i < |got| ==> got[i] == QuantizedAll(sent[i].blocks)
  }

  lemma GotNext(got: seq<seq<Block>>, sent: seq<Message>)
    requires AllGot(got, sent) && |got| < |sent|
    ensures AllGot(got + [QuantizedAll(sent[|got|].blocks)], sent)
  {
  }

  /** Everything read so far is, message by message, what was written; the rest is on its way, in step. */
  ghost predicate Locked(k: Link, c: Crypto)
    requires c.Correct()
  {
    var l := k.lane;
    && |l.got| + |l.flight| == |l.sent|
    && l.burned == 0 && l.unread == 0 && l.lost == 0
    && AllGot(l.got, l.sent)
    && InStep(k.receiver, l.flight, l.sent[|l.got|..], k.sender, c)
  }

  lemma TailOfLonger<T>(s: seq<T>, x: T, n: nat)
    requires n <= |s|
    ensures (s + [x])[n..] == s[n..] + [x]
  {
  }

  lemma PushLocked(k: Link, m: Message, c: Crypto)
    requires c.Correct() && Locked(k, c) && Carried(m)
    ensures Locked(Link(k.sender.Masked(c).Used(), k.receiver, k.lane.(
      flight := k.lane.flight + [Frame(k.sender, EncodeBlocks(m.blocks, m.now), c)], sent := k.lane.sent + [m])), c)
  {
    var l := k.lane;
    InStepPush(k.receiver, l.flight, l.sent[|l.got|..], k.sender, m, c);
    TailOfLonger(l.sent, m, |l.got|);
  }

  /** A message that fits is refused or sent, never lost on the way to the channel. */
  lemma WriteFits(h: Half, blocks: seq<Block>, draws: seq<Draw>, now: u32, c: Crypto, s: Scheme)
    requires UsableAll(blocks, draws) && c.Correct() && s.Correct()
    requires Deliverable(blocks, now) || TotalSize(blocks) % 0x1_0000 == 0
    ensures var w := WriteFrame(h, blocks, draws, now, c, s);
      || w.Rejected?
      || (w.Sent? && Carried(Message(w.blocks, now))
          && w == Sent(h.Masked(c).Used(), w.blocks, Frame(h, EncodeBlocks(w.blocks, now), c)))
  {
    SerializedAll(blocks, draws, now, s);
  }

  lemma PushedLocked(k: Link, w: Writing, now: u32, c: Crypto)
    requires c.Correct() && Locked(k, c)
    requires w.Sent? ==>
      && Carried(Message(w.blocks, now)) && w.half == k.sender.Masked(c).Used()
      && w.frame == Frame(k.sender, EncodeBlocks(w.blocks, now), c)
    requires !w.Burned?
    ensures Locked(Link(w.After(k.sender), k.receiver, Pushed(k.lane, w, now)), c)
  {
    if w.Sent? {
      PushLocked(k, Message(w.blocks, now), c);
    }
  }

  lemma WriteLocked(k: Link, a: Action, c: Crypto, s: Scheme)
    requires a.Valid() && c.Correct() && s.Correct() && Locked(k, c) && a.Write? && Fits(k, a)
    ensures Locked(LinkStep(k, a, c, s), c)
  {
    var w := WriteFrame(k.sender, a.blocks, a.draws, a.now, c, s);
    WriteFits(k.sender, a.blocks, a.draws, a.now, c, s);
    PushedLocked(k, w, a.now, c);
  }

  lemma Oldest(k: Link, c: Crypto)
    requires c.Correct() && Locked(k, c) && k.lane.flight != []
    ensures |k.lane.got| < |k.lane.sent| && var m := k.lane.sent[|k.lane.got|];
      Carried(m) && k.lane.flight[0] == Frame(k.receiver, EncodeBlocks(m.blocks, m.now), c)
  {
  }

  lemma RecoveredMessage(h: Half, m: Message, env: Env, c: Crypto)
    requires c.Correct() && env.Valid() && Carried(m) && AllReadable(m.blocks, env.now)
    ensures ReadFrame(h, Frame(h, EncodeBlocks(m.blocks, m.now), c), true, env, c)
      == Got(h.Masked(c).Used(), QuantizedAll(m.blocks))
  {
    Recovered(h, m.blocks, m.now, env, c);
  }

  lemma RestOfTail<T>(s: seq<T>, n: nat)
    requires n < |s|
    ensures s[n..][1..] == s[n + 1..] && s[n..][0] == s[n]
  {
  }

  lemma PopLocked(k: Link, r: Reading, c: Crypto)
    requires c.Correct() && Locked(k, c) && k.lane.flight != []
    requires r == Got(k.receiver.Masked(c).Used(), QuantizedAll(k.lane.sent[|k.lane.got|].blocks))
    ensures Locked(Link(k.sender, r.After(k.receiver), Popped(k.lane, r, k.receiver)), c)
  {
    RestOfTail(k.lane.sent, |k.lane.got|);
    GotNext(k.lane.got, k.lane.sent);
  }

  lemma ReadLocked(k: Link, a: Action, c: Crypto, s: Scheme)
    requires a.Valid() && c.Correct() && s.Correct() && Locked(k, c) && a.Read? && Fits(k, a)
    ensures Locked(LinkStep(k, a, c, s), c)
  {
    if k.lane.flight != [] {
      var m := k.lane.sent[|k.lane.got|];
      Oldest(k, c);
      RecoveredMessage(k.receiver, m, a.env, c);
      PopLocked(k, Got(k.receiver.Masked(c).Used(), QuantizedAll(m.blocks)), c);
    }
  }

  /** In every run, however writes and reads are interleaved, each frame read yields exactly the blocks of the
      message written in its place, and the receiver trails the sender by exactly the frames in flight. */
  lemma {:induction false} StaysLocked(k: Link, acts: seq<Action>, c: Crypto, s: Scheme)
    requires AllValid(acts) && c.Correct() && s.Correct() && Locked(k, c) && Smooth(k, acts, c, s)
    ensures Locked(LinkRun(k, acts, c, s), c)
    decreases |acts|
  {
    if acts != [] {
      if acts[0].Write? {
        WriteLocked(k, acts[0], c, s);
      } else {
        ReadLocked(k, acts[0], c, s);
      }
      StaysLocked(LinkStep(k, acts[0], c, s), acts[1..], c, s);
    }
  }

  /** A failed write costs a mask exactly when the message passes the emptiness test and is then rejected. */
  lemma BurnedExactly(h: Half, blocks: seq<Block>, draws: seq<Draw>, now: u32, c: Crypto, s: Scheme)
    requires UsableAll(blocks, draws) && c.Correct() && s.Correct()
    ensures var n := TotalSize(blocks);
      WriteFrame(h, blocks, draws, now, c, s).Burned?
      <==> n % 0x1_0000 != 0 && !(n <= MAX_MESSAGE && DataOrder(Types(blocks)) && WritableAll(blocks, now))
  {
    SerializedAll(blocks, draws, now, s);
  }

  /** For one, a message that has another block after its padding. */
  lemma OutOfOrderBurns(h: Half, timestamp: u32, first: Draw, second: Draw, now: u32, c: Crypto, s: Scheme)
    requires c.Correct() && s.Correct() && first.random == []
    ensures var blocks := [Padding([]), DateTime(timestamp)];
      && UsableAll(blocks, [first, second])
      && WriteFrame(h, blocks, [first, second], now, c, s) == Burned(h.Masked(c))
  {
    var (blocks, draws) := ([Padding([]), DateTime(timestamp)], [first, second]);
    assert blocks[1..] == [DateTime(timestamp)] && draws[1..] == [second];
    assert UsableAll(blocks[1..], draws[1..]);
    assert Types(blocks) == [PADDING, DATE_TIME] && Types(blocks)[0] == PADDING;
    assert blocks[1..][1..] == [] && TotalSize(blocks[1..]) == DateTime(timestamp).Size() == 7;
    assert TotalSize(blocks) == Padding([]).Size() + 7 == 10;
    BurnedExactly(h, blocks, draws, now, c, s);
  }

  // ---------------------------------------------------------------- a session

  const EMPTY: Lane := Lane([], [], [], 0, 0, 0)

  lemma AheadFirst(h: Half, m: nat, n: nat, c: Crypto)
    requires c.Correct()
    ensures Ahead(h.Masked(c).Used(), m, n, c) == Ahead(h, m + 1, n + 1, c)
  {
    assert Chain(h.sipKey, h.iv, 1, c) == c.sip(h.sipKey, Chain(h.sipKey, h.iv, 0, c))[..8];
    ChainOn(h.sipKey, h.iv, 1, m, c);
  }

  lemma {:induction false} Trails(receiver: Half, flight: seq<Buffer>, pending: seq<Message>, sender: Half, c: Crypto)
    requires c.Correct() && InStep(receiver, flight, pending, sender, c)
    ensures |pending| == |flight| && sender == Ahead(receiver, |flight|, |flight|, c)
    decreases |flight|
  {
    if flight != [] {
      Trails(receiver.Masked(c).Used(), flight[1..], pending[1..], sender, c);
      AheadFirst(receiver, |flight| - 1, |flight| - 1, c);
    }
  }

  lemma FrameMade(h: Half, m: Message, c: Crypto)
    requires c.Correct() && Carried(m)
    ensures Made(Frame(h, EncodeBlocks(m.blocks, m.now), c), h, m, c)
  {
    FrameOnWire(h, EncodeBlocks(m.blocks, m.now), c);
  }

  lemma InStepFirst(h: Half, i: nat, flight: seq<Buffer>, pending: seq<Message>, sender: Half, c: Crypto)
    requires c.Correct() && InStep(Ahead(h, i, i, c), flight, pending, sender, c) && flight != []
    ensures pending != [] && Made(flight[0], Ahead(h, i, i, c), pending[0], c)
    ensures InStep(Ahead(h, i + 1, i + 1, c), flight[1..], pending[1..], sender, c)
  {
    assert Ahead(h, i + 1, i + 1, c) == Ahead(h, i, i, c).Masked(c).Used();
    FrameMade(Ahead(h, i, i, c), pending[0], c);
  }

  /** The frames in flight are those of the pending messages, the first of them under the i-th mask and nonce, the
      next under the one after, and so on. */
  ghost predicate Numbered(flight: seq<Buffer>, pending: seq<Message>, h: Half, i: nat, c: Crypto)
    requires c.Correct()
    decreases |flight|
  {
    if flight == [] then pending == []
    else
      && pending != [] && Made(flight[0], Ahead(h, i, i, c), pending[0], c)
      && Numbered(flight[1..], pending[1..], h, i + 1, c)
  }

  lemma {:induction false} InFlight(h: Half, i: nat, flight: seq<Buffer>, pending: seq<Message>, receiver: Half,
                                    sender: Half, c: Crypto)
    requires c.Correct() && InStep(receiver, flight, pending, sender, c) && receiver == Ahead(h, i, i, c)
    ensures Numbered(flight, pending, h, i, c)
    decreases |flight|
  {
    if flight != [] {
      InStepFirst(h, i, flight, pending, sender, c);
      InFlight(h, i + 1, flight[1..], pending[1..], Ahead(h, i + 1, i + 1, c), sender, c);
    }
  }

  /** The two peers after one handshake: each one's send cipher is the other's receive cipher. */
  ghost function Begun(x: Cipher, y: Cipher, keyAB: Buffer, ivAB: Buffer, keyBA: Buffer, ivBA: Buffer): Net {
    Net(FirstKeys(Initiator, x, y, keyAB, ivAB, keyBA, ivBA), FirstKeys(Responder, y, x, keyAB, ivAB, keyBA, ivBA),
        EMPTY, EMPTY)
  }

  /** Both ends of a direction start in the same state, with nothing in flight. */
  lemma BothBegin(x: Cipher, y: Cipher, keyAB: Buffer, ivAB: Buffer, keyBA: Buffer, ivBA: Buffer, dir: Dir, c: Crypto)
    requires c.Correct()
    ensures var k := View(Begun(x, y, keyAB, ivAB, keyBA, ivBA), dir);
      k.sender == k.receiver && k.lane == EMPTY && Positions(k, k.sender, c) && Locked(k, c)
  {
  }

  /** What lockstep comes to, counted from the keys a direction started with. */
  ghost predicate InLockstep(k: Link, h: Half, c: Crypto)
    requires c.Correct()
  {
    var (l, n) := (k.lane, |k.lane.got|);
    && AllGot(l.got, l.sent) && |l.sent| == n + |l.flight|
    && k.receiver == Ahead(h, n, n, c) && k.sender == Ahead(h, |l.sent|, |l.sent|, c)
    && Numbered(l.flight, l.sent[n..], h, n, c)
  }

  /** With nothing lost, the receiver is where the messages it got have brought it. */
  lemma NothingLost(k: Link, h: Half, c: Crypto)
    requires c.Correct() && Positions(k, h, c)
    requires var l := k.lane; |l.sent| == |l.got| + |l.flight| && l.burned == l.unread == l.lost == 0
    ensures k.receiver == Ahead(h, |k.lane.got|, |k.lane.got|, c)
    ensures k.sender == Ahead(h, |k.lane.sent|, |k.lane.sent|, c)
  {
  }

  lemma LockedMeans(k: Link, h: Half, c: Crypto)
    requires c.Correct() && Positions(k, h, c) && Locked(k, c)
    ensures InLockstep(k, h, c)
  {
    NothingLost(k, h, c);
    InFlight(h, |k.lane.got|, k.lane.flight, k.lane.sent[|k.lane.got|..], k.receiver, k.sender, c);
  }

  lemma LinkBegun(k: Link, acts: seq<Action>, c: Crypto, s: Scheme)
    requires AllValid(acts) && c.Correct() && s.Correct() && Positions(k, k.sender, c) && Locked(k, c)
    ensures var k' := LinkRun(k, acts, c, s);
      Positions(k', k.sender, c) && (Smooth(k, acts, c, s) ==> InLockstep(k', k.sender, c))
  {
    EveryRunPositions(k, acts, k.sender, c, s);
    if Smooth(k, acts, c, s) {
      StaysLocked(k, acts, c, s);
      LockedMeans(LinkRun(k, acts, c, s), k.sender, c);
    }
  }

  /** Both peers start from one handshake. Then in every run the positions are accounted for, and a direction whose
      messages fit stays in lockstep, whatever happens in the other. */
  lemma EverySession(x: Cipher, y: Cipher, keyAB: Buffer, ivAB: Buffer, keyBA: Buffer, ivBA: Buffer,
                     acts: seq<Action>, dir: Dir, c: Crypto, s: Scheme)
    requires AllValid(acts) && c.Correct() && s.Correct()
    ensures AllValid(Only(acts, dir))
    ensures var first := Begun(x, y, keyAB, ivAB, keyBA, ivBA);
      var (k, h) := (View(Run(first, acts, c, s), dir), View(first, dir).sender);
      && Positions(k, h, c)
      && (Smooth(View(first, dir), Only(acts, dir), c, s) ==> InLockstep(k, h, c))
  {
    var first := Begun(x, y, keyAB, ivAB, keyBA, ivBA);
    OnlyValid(acts, dir);
    BothBegin(x, y, keyAB, ivAB, keyBA, ivBA, dir, c);
    DirectionsIndependent(first, acts, dir, c, s);
    LinkBegun(View(first, dir), Only(acts, dir), c, s);
  }
}
