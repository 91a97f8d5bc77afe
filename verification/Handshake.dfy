/** Handshake messages one and two: an obfuscated ephemeral key, encrypted options and clear padding. */
module Handshake {
  import opened Bytes
  import opened Blocks

  const KEY_LEN: nat := 32
  const MAC_LEN: nat := 16
  const OPTIONS_SIZE: nat := 16
  const CIPHERTEXT_SIZE: nat := OPTIONS_SIZE + MAC_LEN
  const NOISE_SIZE: nat := KEY_LEN + CIPHERTEXT_SIZE
  const MAX_SIZE: nat := 65535
  const MIN_PADDING: nat := 32
  const MAX_PADDING: nat := MAX_SIZE - NOISE_SIZE
  const MIN_PART_TWO: nat := MIN_INFO_LEN + MAC_LEN
  const MAX_PART_TWO: nat := 65471
  const VERSION: byte := 2

  // ---------------------------------------------------------------- the Noise handshake state

  /** What has been mixed into the handshake, in order. */
  datatype Item = Key(key: Buffer) | Sealed(text: Buffer) | Mixed(data: Buffer)

  type Transcript = seq<Item>

  /** The Noise library and AES. Both peers hold the same key agreement results, so that a cipher is determined
      by the transcript alone; besides that only inverse laws are assumed. */
  datatype Lib = Lib(
    seal: (Transcript, Buffer) -> Buffer,
    open: (Transcript, Buffer) -> Option<Buffer>,
    encrypt: (Obfuscation, Buffer) -> Buffer,
    decrypt: (Obfuscation, Buffer) -> Buffer)
  {
    ghost predicate Correct() {
      && (forall t: Transcript, p: Buffer :: |seal(t, p)| == |p| + MAC_LEN && open(t, seal(t, p)) == Some(p))
      && (forall t: Transcript, c: Buffer :: open(t, c).Some? ==> |open(t, c).value| + MAC_LEN == |c|)
      && (forall k: Obfuscation, b: Buffer :: |encrypt(k, b)| == |b| && decrypt(k, encrypt(k, b)) == b)
      && (forall k: Obfuscation, b: Buffer :: |decrypt(k, b)| == |b|)
    }
  }

  /** AES key and IV: the responder's router hash, and the IV from its RouterInfo. */
  datatype Obfuscation = Obfuscation(hash: Buffer, iv: Buffer)

  function After(t: Transcript, e: Buffer, c: Buffer): Transcript {
    t + [Key(e), Sealed(c)]
  }

  function Mixes(t: Transcript, c: Buffer, padding: Buffer): Transcript {
    t + [Mixed(c), Mixed(padding)]
  }

  class HandshakeState {
    const lib: Lib
    var t: Transcript

    constructor (lib: Lib, t: Transcript)
      ensures this.lib == lib && this.t == t
    {
      this.lib, this.t := lib, t;
    }

    /** Messages one and two: an ephemeral key and an encrypted payload. */
    method WriteMessage(e: Buffer, payload: Buffer) returns (data: Buffer)
      modifies this
      ensures var c := lib.seal(old(t) + [Key(e)], payload);
        data == e + c && t == After(old(t), e, c)
    {
      var c := lib.seal(t + [Key(e)], payload);
      data, t := e + c, After(t, e, c);
    }

    method ReadMessage(data: Buffer) returns (payload: Option<Buffer>)
      requires |data| >= KEY_LEN
      modifies this
      ensures payload == lib.open(old(t) + [Key(data[..KEY_LEN])], data[KEY_LEN..])
      ensures payload.Some? ==> t == After(old(t), data[..KEY_LEN], data[KEY_LEN..])
    {
      payload := lib.open(t + [Key(data[..KEY_LEN])], data[KEY_LEN..]);
      t := After(t, data[..KEY_LEN], data[KEY_LEN..]);
    }

    /** Message three: the encrypted static key, then the encrypted payload. */
    method WriteLast(s: Buffer, payload: Buffer) returns (data: Buffer)
      modifies this
      ensures var c := lib.seal(old(t), s);
        var d := lib.seal(old(t) + [Sealed(c)], payload);
        data == c + d && t == old(t) + [Sealed(c), Sealed(d)]
    {
      var c := lib.seal(t, s);
      var d := lib.seal(t + [Sealed(c)], payload);
      data, t := c + d, t + [Sealed(c), Sealed(d)];
    }

    method ReadLast(data: Buffer) returns (r: Option<(Buffer, Buffer)>)
      requires |data| >= KEY_LEN + MAC_LEN
      modifies this
      ensures var (c, d) := (data[..KEY_LEN + MAC_LEN], data[KEY_LEN + MAC_LEN..]);
        var (s, p) := (lib.open(old(t), c), lib.open(old(t) + [Sealed(c)], d));
        && r == (if s.Some? && p.Some? then Some((s.value, p.value)) else None)
        && (r.Some? ==> t == old(t) + [Sealed(c), Sealed(d)])
    {
      var (c, d) := (data[..KEY_LEN + MAC_LEN], data[KEY_LEN + MAC_LEN..]);
      var (s, p) := (lib.open(t, c), lib.open(t + [Sealed(c)], d));
      r := if s.Some? && p.Some? then Some((s.value, p.value)) else None;
      t := t + [Sealed(c), Sealed(d)];
    }

    /** Mixes in the previous message's ciphertext and padding, neither of which may be empty. */
    method Derive(ciphertext: Buffer, padding: Buffer) returns (ok: bool)
      modifies this
      ensures ok == (ciphertext != [] && padding != [])
      ensures t == if ok then Mixes(old(t), ciphertext, padding) else old(t)
    {
      ok := ciphertext != [] && padding != [];
      if ok {
        t := t + [Mixed(ciphertext)];
        t := t + [Mixed(padding)];
        assert t == Mixes(old(t), ciphertext, padding);
      }
    }
  }

  // ---------------------------------------------------------------- the fixed part of messages one and two

  function Header(t: Transcript, e: Buffer, payload: Buffer, lib: Lib, k: Obfuscation): Buffer {
    lib.encrypt(k, e) + lib.seal(t + [Key(e)], payload)
  }

  /** The payload, and the transcript after it. */
  function OpenHeader(t: Transcript, d: Buffer, lib: Lib, k: Obfuscation): Option<(Buffer, Transcript)>
    requires |d| == NOISE_SIZE
  {
    var e := lib.decrypt(k, d[..KEY_LEN]);
    var c := d[KEY_LEN..];
    match lib.open(t + [Key(e)], c)
    case None => None
    case Some(p) => Some((p, After(t, e, c)))
  }

  /** The reader of a fixed part recovers the payload and mixes what the writer mixed. */
  lemma HeaderBack(t: Transcript, e: Buffer, payload: Buffer, lib: Lib, k: Obfuscation)
    requires lib.Correct() && |e| == KEY_LEN && |payload| == OPTIONS_SIZE
    ensures var d := Header(t, e, payload, lib, k);
      && |d| == NOISE_SIZE && d[..KEY_LEN] == lib.encrypt(k, e) && d[KEY_LEN..] == lib.seal(t + [Key(e)], payload)
      && OpenHeader(t, d, lib, k) == Some((payload, After(t, e, d[KEY_LEN..])))
  {
    var d := Header(t, e, payload, lib, k);
    assert d[..KEY_LEN] == lib.encrypt(k, e) && d[KEY_LEN..] == lib.seal(t + [Key(e)], payload);
  }

  // ---------------------------------------------------------------- options

  datatype RequestOptions = RequestOptions(version: byte, padLen: u16, partTwo: u16, timestamp: u32)
  {
    predicate Ok(now: u32) {
      && version == VERSION && padLen as nat <= MAX_PADDING
      && MIN_PART_TWO <= partTwo as nat <= MAX_PART_TWO && LagOk(now, timestamp)
    }
  }

  datatype CreatedOptions = CreatedOptions(padLen: u16, timestamp: u32)
  {
    predicate Ok(now: u32) {
      padLen as nat <= MAX_PADDING && LagOk(now, timestamp)
    }
  }

  /** The fields one after the other, over what the buffer held before. */
  function EncodeRequest(o: RequestOptions, b: Buffer): (e: Buffer)
    requires |b| == OPTIONS_SIZE
    ensures |e| == OPTIONS_SIZE
  {
    [o.version] + BE16(o.padLen) + BE16(o.partTwo) + BE32(o.timestamp) + b[9..]
  }

  function ParseRequest(b: Buffer): RequestOptions
    requires |b| == OPTIONS_SIZE
  {
    RequestOptions(b[0], FromBE16(b[1..3]), FromBE16(b[3..5]), FromBE32(b[5..9]))
  }

  function EncodeCreated(o: CreatedOptions, b: Buffer): (e: Buffer)
    requires |b| == OPTIONS_SIZE
    ensures |e| == OPTIONS_SIZE
  {
    BE16(o.padLen) + BE32(o.timestamp) + b[6..]
  }

  function ParseCreated(b: Buffer): CreatedOptions
    requires |b| == OPTIONS_SIZE
  {
    CreatedOptions(FromBE16(b[..2]), FromBE32(b[2..6]))
  }

  lemma OptionsBack(o: RequestOptions, o2: CreatedOptions, b: Buffer)
    requires |b| == OPTIONS_SIZE
    ensures ParseRequest(EncodeRequest(o, b)) == o && ParseCreated(EncodeCreated(o2, b)) == o2
  {
    var (e, f) := (EncodeRequest(o, b), EncodeCreated(o2, b));
    assert e[1..3] == BE16(o.padLen) && e[3..5] == BE16(o.partTwo) && e[5..9] == BE32(o.timestamp);
    assert f[..2] == BE16(o2.padLen) && f[2..6] == BE32(o2.timestamp);
  }

  /** The options at their places, most significant byte first; the rest of the buffer stays. */
  lemma RequestPlaces(o: RequestOptions, b: Buffer)
    requires |b| == OPTIONS_SIZE
    ensures var e := EncodeRequest(o, b);
      && e[0] == o.version && BigEndian(e[1..3]) == o.padLen as nat && BigEndian(e[3..5]) == o.partTwo as nat
      && BigEndian(e[5..9]) == o.timestamp as nat && e[9..] == b[9..]
  {
    var e := EncodeRequest(o, b);
    assert e[1..3] == BE16(o.padLen) && e[3..5] == BE16(o.partTwo) && e[5..9] == BE32(o.timestamp);
    ByteOrder16(e[1..3]);
    ByteOrder16(e[3..5]);
    ByteOrder32(e[5..9]);
  }

  lemma CreatedPlaces(o: CreatedOptions, b: Buffer)
    requires |b| == OPTIONS_SIZE
    ensures var e := EncodeCreated(o, b);
      && BigEndian(e[..2]) == o.padLen as nat && BigEndian(e[2..6]) == o.timestamp as nat && e[6..] == b[6..]
  {
    var e := EncodeCreated(o, b);
    assert e[..2] == BE16(o.padLen) && e[2..6] == BE32(o.timestamp);
    ByteOrder16(e[..2]);
    ByteOrder32(e[2..6]);
  }

  /** The options either message accepts; a timestamp ahead of the clock is not among them. */
  lemma OkExactly(o: RequestOptions, o2: CreatedOptions, now: u32)
    ensures o.Ok(now) <==> && o.version == 2 && o.padLen as nat <= 65471 && 456 <= o.partTwo as nat <= 65471
                           && Recent(now as nat, o.timestamp as nat)
    ensures o2.Ok(now) <==> o2.padLen as nat <= 65471 && Recent(now as nat, o2.timestamp as nat)
  {
    RecentExactly(now, o.timestamp);
    RecentExactly(now, o2.timestamp);
  }

  // ---------------------------------------------------------------- reading the fixed parts

  function RequestFrom(t: Transcript, d: Buffer, now: u32, lib: Lib, k: Obfuscation):
    Option<(RequestOptions, Transcript)>
    requires |d| == NOISE_SIZE
  {
    match OpenHeader(t, d, lib, k)
    case None => None
    case Some((p, t')) =>
      if |p| == OPTIONS_SIZE && ParseRequest(p).Ok(now) && ParseRequest(p).padLen as nat >= MIN_PADDING
      then Some((ParseRequest(p), t')) else None
  }

  function CreatedFrom(t: Transcript, d: Buffer, now: u32, lib: Lib, k: Obfuscation):
    Option<(CreatedOptions, Transcript)>
    requires |d| == NOISE_SIZE
  {
    match OpenHeader(t, d, lib, k)
    case None => None
    case Some((p, t')) =>
      if |p| == OPTIONS_SIZE && ParseCreated(p).Ok(now) && ParseCreated(p).padLen as nat >= MIN_PADDING
      then Some((ParseCreated(p), t')) else None
  }

  // ---------------------------------------------------------------- the message classes

  /** Encrypts the fixed part. */
  method WriteFixed(state: HandshakeState, e: Buffer, payload: Buffer, k: Obfuscation) returns (d: Buffer)
    requires state.lib.Correct() && |e| == KEY_LEN
    modifies state
    ensures d == Header(old(state.t), e, payload, state.lib, k)
    ensures |d| == |payload| + KEY_LEN + MAC_LEN && state.t == After(old(state.t), e, d[KEY_LEN..])
  {
    d := state.WriteMessage(e, payload);
    assert d[..KEY_LEN] == e && d[KEY_LEN..] == state.lib.seal(old(state.t) + [Key(e)], payload);
    d := state.lib.encrypt(k, d[..KEY_LEN]) + d[KEY_LEN..];
  }

  method ReadFixed(state: HandshakeState, d: Buffer, k: Obfuscation) returns (p: Option<Buffer>)
    requires state.lib.Correct() && |d| == NOISE_SIZE
    modifies state
    ensures OpenHeader(old(state.t), d, state.lib, k) == if p.Some? then Some((p.value, state.t)) else None
  {
    var e := state.lib.decrypt(k, d[..KEY_LEN]);
    var b := e + d[KEY_LEN..];
    assert b[..KEY_LEN] == e && b[KEY_LEN..] == d[KEY_LEN..];
    p := state.ReadMessage(b);
  }

  class SessionRequestMessage {
    var data: Buffer
    var padding: Buffer
    var ciphertext: Buffer
    var options: RequestOptions
    var buffer: Buffer

    constructor (options: RequestOptions, padding: Buffer)
      ensures this.options == options && this.padding == padding && |buffer| == OPTIONS_SIZE
    {
      this.options, this.padding := options, padding;
      data, ciphertext, buffer := Zeros(NOISE_SIZE), [], Zeros(OPTIONS_SIZE);
    }

    /** The padding's length is checked only after the options have been encrypted. */
    method Write(state: HandshakeState, e: Buffer, now: u32, k: Obfuscation) returns (ok: bool)
      requires state.lib.Correct() && |e| == KEY_LEN && |buffer| == OPTIONS_SIZE && |padding| == options.padLen
      modifies this`data, this`ciphertext, this`buffer, state
      ensures ok <==> options.Ok(now) && options.padLen as nat >= MIN_PADDING
      ensures ok ==> buffer == EncodeRequest(options, old(buffer))
      ensures ok ==> |ciphertext| == CIPHERTEXT_SIZE && state.t == After(old(state.t), e, ciphertext)
      ensures ok ==> var d := Header(old(state.t), e, buffer, state.lib, k);
        data == d + padding && |d| == NOISE_SIZE && ciphertext == d[KEY_LEN..]
    {
      if !options.Ok(now) {
        return false;
      }
      buffer := EncodeRequest(options, buffer);
      var d := WriteFixed(state, e, buffer, k);
      ciphertext := d[KEY_LEN..];
      ok := options.padLen >= MIN_PADDING;
      data := d + padding;
    }

    /** Reads the fixed part, and the padding too if the buffer holds exactly that. */
    method Read(state: HandshakeState, now: u32, k: Obfuscation) returns (ok: bool)
      requires state.lib.Correct()
      modifies this`padding, this`ciphertext, this`options, this`buffer, state
      ensures ok <==> && NOISE_SIZE <= |data| <= MAX_SIZE
                      && RequestFrom(old(state.t), data[..NOISE_SIZE], now, state.lib, k).Some?
      ensures ok ==> Some((options, state.t)) == RequestFrom(old(state.t), data[..NOISE_SIZE], now, state.lib, k)
      ensures ok ==> ciphertext == data[KEY_LEN..NOISE_SIZE]
      ensures ok ==> padding == if |data| - NOISE_SIZE == options.padLen then data[NOISE_SIZE..] else old(padding)
    {
      if |data| < NOISE_SIZE || |data| > MAX_SIZE {
        return false;
      }
      ciphertext := data[KEY_LEN..NOISE_SIZE];
      var p := ReadFixed(state, data[..NOISE_SIZE], k);
      if p.None? || |p.value| != OPTIONS_SIZE {
        return false;
      }
      buffer := p.value;
      options := ParseRequest(buffer);
      ok := options.Ok(now) && options.padLen >= MIN_PADDING;
      if ok && |data| - NOISE_SIZE == options.padLen {
        padding := data[NOISE_SIZE..];
      }
    }
  }

  class SessionCreatedMessage {
    var data: Buffer
    var padding: Buffer
    var ciphertext: Buffer
    var options: CreatedOptions
    var buffer: Buffer

    constructor (options: CreatedOptions, padding: Buffer)
      ensures this.options == options && this.padding == padding && |buffer| == OPTIONS_SIZE
    {
      this.options, this.padding := options, padding;
      data, ciphertext, buffer := Zeros(NOISE_SIZE), [], Zeros(OPTIONS_SIZE);
    }

    /** Unlike the request, the writer does not insist on a least padding. */
    method Write(state: HandshakeState, e: Buffer, now: u32, k: Obfuscation) returns (ok: bool)
      requires state.lib.Correct() && |e| == KEY_LEN && |buffer| == OPTIONS_SIZE && |padding| == options.padLen
      modifies this`data, this`ciphertext, this`buffer, state
      ensures ok <==> options.Ok(now)
      ensures ok ==> buffer == EncodeCreated(options, old(buffer))
      ensures ok ==> |ciphertext| == CIPHERTEXT_SIZE && state.t == After(old(state.t), e, ciphertext)
      ensures ok ==> var d := Header(old(state.t), e, buffer, state.lib, k);
        data == d + padding && |d| == NOISE_SIZE && ciphertext == d[KEY_LEN..]
    {
      ok := options.Ok(now);
      if ok {
        buffer := EncodeCreated(options, buffer);
        var d := WriteFixed(state, e, buffer, k);
        ciphertext := d[KEY_LEN..];
        data := d + padding;
      }
    }

    method Read(state: HandshakeState, now: u32, k: Obfuscation) returns (ok: bool)
      requires state.lib.Correct()
      modifies this`padding, this`ciphertext, this`options, this`buffer, state
      ensures ok <==> && NOISE_SIZE <= |data| <= MAX_SIZE
                      && CreatedFrom(old(state.t), data[..NOISE_SIZE], now, state.lib, k).Some?
      ensures ok ==> Some((options, state.t)) == CreatedFrom(old(state.t), data[..NOISE_SIZE], now, state.lib, k)
      ensures ok ==> ciphertext == data[KEY_LEN..NOISE_SIZE]
      ensures ok ==> padding == if |data| - NOISE_SIZE == options.padLen then data[NOISE_SIZE..] else old(padding)
    {
      if |data| < NOISE_SIZE || |data| > MAX_SIZE {
        return false;
      }
      var p := ReadFixed(state, data[..NOISE_SIZE], k);
      ciphertext := data[KEY_LEN..NOISE_SIZE];
      if p.None? || |p.value| != OPTIONS_SIZE {
        return false;
      }
      buffer := p.value;
      options := ParseCreated(buffer);
      ok := options.Ok(now) && options.padLen >= MIN_PADDING;
      if ok && |data| - NOISE_SIZE == options.padLen {
        padding := data[NOISE_SIZE..];
      }
    }
  }
}
