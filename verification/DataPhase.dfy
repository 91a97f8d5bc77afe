/** The data phase: length masks from a SipHash chain and one cipher per direction, around messages. */
module DataPhases {
  import opened Bytes
  import Bits
  import opened Infos
  import opened Blocks
  import opened BlockIO
  import opened DataMessages

  const IV_LEN: nat := 8
  const SIP_DIGEST_LEN: nat := 16

  /** SipHash, and the AEAD cipher under a key and a nonce; only these laws are assumed of them. */
  datatype Crypto = Crypto(
    sip: (Buffer, Buffer) -> Buffer,
    seal: (Buffer, nat, Buffer) -> Buffer,
    open: (Buffer, nat, Buffer) -> Option<Buffer>)
  {
    ghost predicate Correct() {
      && (forall key: Buffer, iv: Buffer :: |sip(key, iv)| == SIP_DIGEST_LEN)
      && (forall key: Buffer, n: nat, p: Buffer ::
            |seal(key, n, p)| == |p| + MAC_LEN && open(key, n, seal(key, n, p)) == Some(p))
      && (forall key: Buffer, n: nat, e: Buffer ::
            open(key, n, e).Some? ==> |open(key, n, e).value| + MAC_LEN == |e|)
    }
  }

  datatype Cipher = Cipher(key: Buffer, nonce: nat)

  datatype Role = Initiator | Responder

  datatype Dir = AliceToBob | BobToAlice

  /** The initiator of the data phase is Bob. */
  function WriteDir(role: Role): Dir {
    if role.Initiator? then BobToAlice else AliceToBob
  }

  function ReadDir(role: Role): Dir {
    if role.Initiator? then AliceToBob else BobToAlice
  }

  /** What one peer keeps for one direction. */
  datatype Half = Half(sipKey: Buffer, iv: Buffer, cipher: Cipher)
  {
    function Digest(c: Crypto): Buffer {
      c.sip(sipKey, iv)
    }

    /** The first two bytes of the digest. */
    function Mask(c: Crypto): u16
      requires |Digest(c)| == SIP_DIGEST_LEN
    {
      FromBE16(Digest(c)[..2])
    }

    /** After one mask: the first eight bytes of the digest are the next IV. */
    function Masked(c: Crypto): Half
      requires |Digest(c)| == SIP_DIGEST_LEN
    {
      this.(iv := Digest(c)[..IV_LEN])
    }

    /** After one use of the cipher. */
    function Used(): Half {
      this.(cipher := cipher.(nonce := cipher.nonce + 1))
    }
  }

  function XorLength(length: u16, mask: u16): u16 {
    Bits.Pow2Values();
    Bits.Xor(length, mask, 16)
  }

  /** A bit of the masked length is set exactly where the length and the mask differ. */
  lemma MaskedBits(length: u16, mask: u16, j: nat)
    requires j < 16
    ensures Bits.NatBits(XorLength(length, mask), 16)[j]
      == if Bits.NatBits(length, 16)[j] == Bits.NatBits(mask, 16)[j] then 0 else 1
  {
    Bits.XorBits(length, mask, 16, j);
  }

  lemma UnmaskLength(length: u16, mask: u16)
    ensures XorLength(XorLength(length, mask), mask) == length
  {
    Bits.Pow2Values();
    Bits.XorTwice(length, mask, 16);
  }

  /** The lowest 16 bits, as a signed number. */
  function Int16(n: int): int {
    if n % 0x1_0000 < 0x8000 then n % 0x1_0000 else n % 0x1_0000 - 0x1_0000
  }

  // ---------------------------------------------------------------- key state

  /** A peer's key state, for both directions. */
  datatype Keys = Keys(ab: Half, ba: Half)
  {
    function Of(dir: Dir): Half {
      if dir.AliceToBob? then ab else ba
    }

    function With(dir: Dir, h: Half): Keys {
      if dir.AliceToBob? then this.(ab := h) else this.(ba := h)
    }
  }

  /** The handshake's send and receive ciphers are assigned to directions by role. */
  function FirstKeys(role: Role, send: Cipher, receive: Cipher, keyAB: Buffer, ivAB: Buffer, keyBA: Buffer,
                     ivBA: Buffer): Keys {
    var (ab, ba) := if role.Initiator? then (send, receive) else (receive, send);
    Keys(Half(keyAB, ivAB, ab), Half(keyBA, ivBA, ba))
  }

  class KDF {
    const crypto: Crypto
    const keyAB: Buffer
    const keyBA: Buffer
    var ivAB: Buffer
    var ivBA: Buffer
    var aliceToBob: Cipher
    var bobToAlice: Cipher

    function State(dir: Dir): Half
      reads this
    {
      if dir.AliceToBob? then Half(keyAB, ivAB, aliceToBob)
      else Half(keyBA, ivBA, bobToAlice)
    }

    constructor (crypto: Crypto, role: Role, send: Cipher, receive: Cipher, keyAB: Buffer, ivAB: Buffer,
                 keyBA: Buffer, ivBA: Buffer)
      ensures this.crypto == crypto && this.keyAB == keyAB && this.keyBA == keyBA
      ensures this.ivAB == ivAB && this.ivBA == ivBA
      ensures if role.Initiator? then aliceToBob == send && bobToAlice == receive
              else aliceToBob == receive && bobToAlice == send
      ensures forall d :: State(d) == FirstKeys(role, send, receive, keyAB, ivAB, keyBA, ivBA).Of(d)
    {
      this.crypto, this.keyAB, this.ivAB, this.keyBA, this.ivBA := crypto, keyAB, ivAB, keyBA, ivBA;
      if role.Initiator? {
        aliceToBob, bobToAlice := send, receive;
      } else {
        bobToAlice, aliceToBob := send, receive;
      }
    }

    method DeriveMask(dir: Dir) returns (mask: u16)
      requires crypto.Correct()
      modifies this`ivAB, this`ivBA
      ensures mask == old(State(dir)).Mask(crypto) && State(dir) == old(State(dir)).Masked(crypto)
      ensures forall d :: d != dir ==> State(d) == old(State(d))
      ensures var d := if dir.AliceToBob? then crypto.sip(keyAB, old(ivAB)) else crypto.sip(keyBA, old(ivBA));
        && mask as int == 256 * d[0] as int + d[1] as int
        && ivAB == (if dir.AliceToBob? then d[..8] else old(ivAB))
        && ivBA == (if dir.AliceToBob? then old(ivBA) else d[..8])
    {
      var digest;
      if dir.AliceToBob? {
        digest := crypto.sip(keyAB, ivAB);
        ivAB := digest[..IV_LEN];
      } else {
        digest := crypto.sip(keyBA, ivBA);
        ivBA := digest[..IV_LEN];
      }
      mask := FromBE16(digest[..2]);
    }

    method ProcessLength(length: u16, dir: Dir) returns (r: u16)
      requires crypto.Correct()
      modifies this`ivAB, this`ivBA
      ensures r == XorLength(length, old(State(dir)).Mask(crypto)) && State(dir) == old(State(dir)).Masked(crypto)
      ensures forall d :: d != dir ==> State(d) == old(State(d))
    {
      var mask := DeriveMask(dir);
      r := XorLength(length, mask);
    }

    method Encrypt(dir: Dir, p: Buffer) returns (e: Buffer)
      modifies this`aliceToBob, this`bobToAlice
      ensures var k := if dir.AliceToBob? then old(aliceToBob) else old(bobToAlice);
        e == crypto.seal(k.key, k.nonce, p)
      ensures e == crypto.seal(old(State(dir)).cipher.key, old(State(dir)).cipher.nonce, p)
      ensures State(dir) == old(State(dir)).Used()
      ensures forall d :: d != dir ==> State(d) == old(State(d))
    {
      if dir.AliceToBob? {
        e := crypto.seal(aliceToBob.key, aliceToBob.nonce, p);
        aliceToBob := aliceToBob.(nonce := aliceToBob.nonce + 1);
      } else {
        e := crypto.seal(bobToAlice.key, bobToAlice.nonce, p);
        bobToAlice := bobToAlice.(nonce := bobToAlice.nonce + 1);
      }
    }

    /** The nonce moves on only when the message is authentic. */
    method Decrypt(dir: Dir, e: Buffer) returns (p: Option<Buffer>)
      modifies this`aliceToBob, this`bobToAlice
      ensures var k := if dir.AliceToBob? then old(aliceToBob) else old(bobToAlice);
        p == crypto.open(k.key, k.nonce, e)
      ensures p == crypto.open(old(State(dir)).cipher.key, old(State(dir)).cipher.nonce, e)
      ensures State(dir) == if p.Some? then old(State(dir)).Used() else old(State(dir))
      ensures forall d :: d != dir ==> State(d) == old(State(d))
    {
      if dir.AliceToBob? {
        p := crypto.open(aliceToBob.key, aliceToBob.nonce, e);
        aliceToBob := if p.Some? then aliceToBob.(nonce := aliceToBob.nonce + 1) else aliceToBob;
      } else {
        p := crypto.open(bobToAlice.key, bobToAlice.nonce, e);
        bobToAlice := if p.Some? then bobToAlice.(nonce := bobToAlice.nonce + 1) else bobToAlice;
      }
    }
  }

  // ---------------------------------------------------------------- writing

  /** Rejected before anything happens; failed after a mask was used; or sent, with renewed blocks. */
  datatype Writing = Rejected | Burned(half: Half) | Sent(half: Half, blocks: seq<Block>, frame: Buffer)
  {
    /** The state left behind. */
    function After(h: Half): Half {
      if Rejected? then h else half
    }
  }

  function Max(a: nat, b: nat): nat {
    if a < b then b else a
  }

  lemma PlainLength(m: nat, n: nat)
    requires m == (n + MAC_LEN) % 0x1_0000
    ensures MAC_LEN <= Max(m, n) <= n + MAC_LEN
  {
  }

  /** What is encrypted of the blocks' bytes: all of them, unless the 16-bit length wrapped. */
  ghost function PlainText(e: Buffer): (p: Buffer)
    ensures |e| < 0x1_0000 - MAC_LEN ==> p == e
  {
    PlainLength((|e| + MAC_LEN) % 0x1_0000, |e|);
    e[..Max((|e| + MAC_LEN) % 0x1_0000, |e|) - MAC_LEN]
  }

  /** The frame of a message's bytes. */
  ghost function Frame(h: Half, e: Buffer, c: Crypto): Buffer
    requires c.Correct()
  {
    BE16(XorLength((|e| + MAC_LEN) % 0x1_0000, h.Mask(c))) + c.seal(h.cipher.key, h.cipher.nonce, PlainText(e))
  }

  /** A buffer of the size the 16-bit length says, beginning with the masked length. */
  ghost predicate Prepared(b: Buffer, n: nat, h: Half, c: Crypto)
    requires c.Correct()
  {
    && |b| == SIZE_LEN + (n + MAC_LEN) % 0x1_0000
    && b[..SIZE_LEN] == BE16(XorLength(|b| - SIZE_LEN, h.Mask(c)))
  }

  /** A buffer encrypted after its length. */
  ghost function Sealed(b: Buffer, cipher: Cipher, c: Crypto): Buffer
    requires |b| >= SIZE_LEN + MAC_LEN
  {
    b[..SIZE_LEN] + c.seal(cipher.key, cipher.nonce, b[SIZE_LEN..|b| - MAC_LEN])
  }

  /** The length is taken in 16 bits; the mask is used before the blocks can turn out not to be serializable. */
  ghost function WriteFrame(h: Half, blocks: seq<Block>, draws: seq<Draw>, now: u32, c: Crypto, s: Scheme): Writing
    requires UsableAll(blocks, draws) && c.Correct() && s.Correct()
  {
    if TotalSize(blocks) % 0x1_0000 == 0 then Rejected else
    var (ok, r) := Serialized(blocks, draws, now, s);
    SerializedAll(blocks, draws, now, s);
    if !ok then Burned(h.Masked(c)) else Sent(h.Masked(c).Used(), r, Frame(h, EncodeBlocks(r, now), c))
  }

  lemma WriteOutcome(h: Half, blocks: seq<Block>, draws: seq<Draw>, now: u32, c: Crypto, s: Scheme)
    requires UsableAll(blocks, draws) && c.Correct() && s.Correct() && TotalSize(blocks) % 0x1_0000 != 0
    ensures var (ok, r) := Serialized(blocks, draws, now, s);
      WriteFrame(h, blocks, draws, now, c, s).Sent? == ok && (ok ==> AllAcceptable(r, now))
      && WriteFrame(h, blocks, draws, now, c, s)
        == if ok then Sent(h.Masked(c).Used(), r, Frame(h, EncodeBlocks(r, now), c)) else Burned(h.Masked(c))
  {
    SerializedAll(blocks, draws, now, s);
  }

  // ---------------------------------------------------------------- reading

  /** Refused unread; dropped without an error; failed; or read. */
  datatype Reading = Unread | Dropped(half: Half) | Failed(half: Half) | Got(half: Half, blocks: seq<Block>)
  {
    function After(h: Half): Half {
      if Unread? then h else half
    }
  }

  /** What comes of an authentic frame. */
  function Parsed(h: Half, blocks: Option<seq<Block>>): Reading {
    if blocks.None? then Failed(h) else Got(h, blocks.value)
  }

  /** Decrypted in place: the last 16 bytes, where the authentication tag was, stay. */
  ghost function OpenSealed(h: Half, body: Buffer, env: Env, c: Crypto): Reading
    requires env.Valid() && |body| >= MAC_LEN
  {
    match c.open(h.cipher.key, h.cipher.nonce, body)
    case None => Failed(h)
    case Some(p) => Parsed(h.Used(), ParseBlocks(p + body[|body| - MAC_LEN..], env, []))
  }

  ghost function OpenFrame(h: Half, frame: Buffer, length: u16, env: Env, c: Crypto): Reading
    requires env.Valid() && |frame| >= SIZE_LEN
  {
    if Int16(length - MAC_LEN) <= 0 then Dropped(h)
    else if |frame| < SIZE_LEN + length then Failed(h)
    else OpenSealed(h, frame[SIZE_LEN..SIZE_LEN + length], env, c)
  }

  ghost function ReadFrame(h: Half, frame: Buffer, deobfuscate: bool, env: Env, c: Crypto): Reading
    requires env.Valid() && c.Correct()
  {
    if |frame| < SIZE_LEN || |frame| > MAX_MESSAGE then Unread else
    var length := FromBE16(frame[..2]);
    if deobfuscate then OpenFrame(h.Masked(c), frame, XorLength(length, h.Mask(c)), env, c)
    else OpenFrame(h, frame, length, env, c)
  }

  /** A digest's first two bytes, as a number. */
  function FirstTwo(d: Buffer): u16
    requires |d| >= 2
  {
    256 * d[0] as int + d[1] as int
  }

  lemma FirstTwoBytes(d: Buffer)
    requires |d| >= 2
    ensures FirstTwo(d) == FromBE16(d[..2])
  {
  }

  lemma Signed(n: u16)
    ensures Int16(n - MAC_LEN) <= 0 <==> n <= 16 || n >= 32784
  {
  }

  lemma LastSixteen(f: Buffer, n: nat)
    requires 16 <= n <= |f| - 2
    ensures f[2..n + 2][n - 16..] == f[n - 14..n + 2]
  {
  }

  /** What becomes of a frame whose length is known, whatever its bytes. */
  ghost predicate Opened(h: Half, h': Half, f: Buffer, n: nat, env: Env, c: Crypto, r: Reading)
    requires env.Valid()
  {
    if n <= 16 || n >= 32784 then r == Dropped(h)
    else if |f| < n + 2 then r == Failed(h)
    else match c.open(h.cipher.key, h.cipher.nonce, f[2..n + 2])
      case None => r == Failed(h)
      case Some(p) => r == match ParseBlocks(p + f[n - 14..n + 2], env, [])
        case None => Failed(h')
        case Some(blocks) => Got(h', blocks)
  }

  lemma FrameOpened(h: Half, f: Buffer, n: u16, env: Env, c: Crypto)
    requires env.Valid() && |f| >= 2
    ensures Opened(h, Half(h.sipKey, h.iv, Cipher(h.cipher.key, h.cipher.nonce + 1)), f, n as nat, env, c,
                   OpenFrame(h, f, n, env, c))
  {
    Signed(n);
    if 16 <= n as nat <= |f| - 2 {
      LastSixteen(f, n as nat);
    }
  }

  /** What becomes of a masked frame, whatever its bytes. Its length is what is left when the digest is taken off
      its first two bytes; the IV moves on before it is looked at, the nonce only when the rest is authentic. */
  lemma EveryFrameRead(h: Half, f: Buffer, env: Env, c: Crypto)
    requires env.Valid() && c.Correct() && 2 <= |f| <= 65537
    ensures var (d, k) := (c.sip(h.sipKey, h.iv), h.cipher);
      Opened(Half(h.sipKey, d[..8], k), Half(h.sipKey, d[..8], Cipher(k.key, k.nonce + 1)), f,
             XorLength(FirstTwo(f), FirstTwo(d)) as nat, env, c, ReadFrame(h, f, true, env, c))
  {
    FirstTwoBytes(f);
    FirstTwoBytes(c.sip(h.sipKey, h.iv));
    FrameOpened(h.Masked(c), f, XorLength(FromBE16(f[..2]), h.Mask(c)), env, c);
  }

  // ---------------------------------------------------------------- the class

  lemma FilledPart(b: Buffer, e: Buffer, m: nat)
    requires |b| >= SIZE_LEN + |e| && m <= |e|
    ensures var r := Filled(b, e);
      |r| == |b| && r[..SIZE_LEN] == b[..SIZE_LEN] && r[SIZE_LEN..SIZE_LEN + m] == e[..m]
  {
  }

  lemma FilledPlain(b: Buffer, e: Buffer)
    requires |b| == SIZE_LEN + (|e| + MAC_LEN) % 0x1_0000
    ensures var r := Filled(Grown(b, SIZE_LEN + |e|), e);
      && |r| >= SIZE_LEN + MAC_LEN && r[..SIZE_LEN] == b[..SIZE_LEN]
      && r[SIZE_LEN..|r| - MAC_LEN] == PlainText(e)
  {
    var g := Grown(b, SIZE_LEN + |e|);
    PlainLength(|b| - SIZE_LEN, |e|);
    FilledPart(g, e, |g| - SIZE_LEN - MAC_LEN);
  }

  /** Encrypting the filled buffer gives the frame. */
  lemma FrameParts(h: Half, e: Buffer, c: Crypto, b: Buffer)
    requires c.Correct() && Prepared(b, |e|, h, c)
    ensures var r := Filled(Grown(b, SIZE_LEN + |e|), e);
      |r| >= SIZE_LEN + MAC_LEN && Sealed(r, h.cipher, c) == Frame(h, e, c)
  {
    FilledPlain(b, e);
  }

  class DataPhase {
    const role: Role
    const kdf: KDF

    constructor (role: Role, kdf: KDF)
      ensures this.role == role && this.kdf == kdf
    {
      this.role, this.kdf := role, kdf;
    }

    method Write(message: DataPhaseMessage, now: u32, draws: seq<Draw>, sha: Buffer -> Buffer, scheme: Scheme)
      returns (ok: bool)
      requires UsableAll(message.blocks, draws) && kdf.crypto.Correct() && scheme.Correct()
      modifies message, kdf
      ensures var dir := WriteDir(role);
        var w := WriteFrame(old(kdf.State(dir)), old(message.blocks), draws, now, kdf.crypto, scheme);
        && ok == w.Sent? && kdf.State(dir) == w.After(old(kdf.State(dir)))
        && (ok ==> message.blocks == w.blocks && message.buffer == w.frame)
      ensures forall d :: d != WriteDir(role) ==> kdf.State(d) == old(kdf.State(d))
    {
      var dir := WriteDir(role);
      var n := message.Size();
      if n % 0x1_0000 == 0 {
        return false;
      }
      Prepare(message, n, dir);
      ghost var b, e := message.buffer, [];
      ok, e := message.Serialize(now, draws, sha, scheme);
      if ok {
        FrameParts(old(kdf.State(dir)), e, kdf.crypto, b);
        Seal(message, dir);
      }
      WriteOutcome(old(kdf.State(dir)), old(message.blocks), draws, now, kdf.crypto, scheme);
    }

    /** Makes room, and writes the masked length. */
    method Prepare(message: DataPhaseMessage, n: nat, dir: Dir)
      requires kdf.crypto.Correct()
      modifies message`buffer, kdf
      ensures Prepared(message.buffer, n, old(kdf.State(dir)), kdf.crypto)
      ensures kdf.State(dir) == old(kdf.State(dir)).Masked(kdf.crypto)
      ensures forall d :: d != dir ==> kdf.State(d) == old(kdf.State(d))
    {
      var length := (n + MAC_LEN) % 0x1_0000;
      message.buffer := Resized(message.buffer, SIZE_LEN + length);
      var masked := kdf.ProcessLength(length, dir);
      message.buffer := BE16(masked) + message.buffer[SIZE_LEN..];
    }

    /** Encrypts in place everything after the length, leaving room for the authentication tag. */
    method Seal(message: DataPhaseMessage, dir: Dir)
      requires kdf.crypto.Correct() && |message.buffer| >= SIZE_LEN + MAC_LEN
      modifies message`buffer, kdf`aliceToBob, kdf`bobToAlice
      ensures message.buffer == Sealed(old(message.buffer), old(kdf.State(dir)).cipher, kdf.crypto)
      ensures kdf.State(dir) == old(kdf.State(dir)).Used()
      ensures forall d :: d != dir ==> kdf.State(d) == old(kdf.State(d))
    {
      var last := |message.buffer| - MAC_LEN;
      var p := kdf.Encrypt(dir, message.buffer[SIZE_LEN..last]);
      message.buffer := message.buffer[..SIZE_LEN] + p;
    }

    /** A frame too short, too long or not authentic throws; a length outside a signed 16-bit range is dropped
        without an error. The message keeps its blocks unless all of the frame was read. */
    method Read(message: DataPhaseMessage, deobfuscate: bool, env: Env, sha: Buffer -> Buffer, scheme: Scheme)
      returns (ok: bool)
      requires NewObject(env) && kdf.crypto.Correct() && scheme.Correct()
      modifies message, kdf
      ensures var dir := ReadDir(role);
        var r := ReadFrame(old(kdf.State(dir)), old(message.buffer), deobfuscate, env, kdf.crypto);
        && ok == (r.Got? || r.Dropped?) && kdf.State(dir) == r.After(old(kdf.State(dir)))
        && message.blocks == if r.Got? then r.blocks else old(message.blocks)
      ensures forall d :: d != ReadDir(role) ==> kdf.State(d) == old(kdf.State(d))
    {
      var dir := ReadDir(role);
      if |message.buffer| < SIZE_LEN || |message.buffer| > MAX_MESSAGE {
        return false;
      }
      var length := FromBE16(message.buffer[..2]);
      if deobfuscate {
        length := kdf.ProcessLength(length, dir);
      }
      ok := ReadBody(message, length, dir, env, sha, scheme);
    }

    method ReadBody(message: DataPhaseMessage, length: u16, dir: Dir, env: Env, sha: Buffer -> Buffer, scheme: Scheme)
      returns (ok: bool)
      requires NewObject(env) && kdf.crypto.Correct() && scheme.Correct() && |message.buffer| >= SIZE_LEN
      modifies message, kdf`aliceToBob, kdf`bobToAlice
      ensures var r := OpenFrame(old(kdf.State(dir)), old(message.buffer), length, env, kdf.crypto);
        && ok == (r.Got? || r.Dropped?) && kdf.State(dir) == r.After(old(kdf.State(dir)))
        && message.blocks == if r.Got? then r.blocks else old(message.blocks)
      ensures forall d :: d != dir ==> kdf.State(d) == old(kdf.State(d))
    {
      if Int16(length - MAC_LEN) <= 0 {
        return true;
      }
      if |message.buffer| < SIZE_LEN + length {
        return false;
      }
      var b := message.buffer;
      PartOf(b, SIZE_LEN, length, length - MAC_LEN);
      var p := kdf.Decrypt(dir, b[SIZE_LEN..SIZE_LEN + length]);
      if p.None? {
        return false;
      }
      message.buffer := b[..SIZE_LEN] + (p.value + b[SIZE_LEN + length - MAC_LEN..SIZE_LEN + length]);
      assert message.buffer[SIZE_LEN..] == p.value + b[SIZE_LEN + length - MAC_LEN..SIZE_LEN + length];
      ok := message.Deserialize(env, sha, scheme);
    }
  }
}
