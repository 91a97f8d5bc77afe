/** The block classes: fields, a size field and a buffer, rewritten in place by serialize and deserialize. */
module LeafBlocks {
  import opened Bytes
  import opened Identities
  import opened Infos
  import opened Blocks

  /** A buffer that holds one whole block, as the code that cuts blocks out of a message leaves it. */
  predicate Framed(buf: Buffer) {
    |buf| >= HEADER_LEN && |buf| == HEADER_LEN + FromBE16(buf[1..3])
  }

  method WriteHeader(writer: Writer, t: byte, size: u16) returns (ok: bool)
    requires writer.Valid() && writer.pos == 0 && HEADER_LEN <= |writer.buf|
    modifies writer
    ensures ok && writer.Valid() && |writer.buf| == |old(writer.buf)| && writer.Done() == [t] + BE16(size)
    ensures writer.buf[HEADER_LEN..] == old(writer.buf)[HEADER_LEN..]
  {
    ok := writer.WriteData([t]);
    SameTail(writer.buf, old(writer.buf), 1, HEADER_LEN);
    ok := writer.WriteData(BE16(size));
  }

  /** Writing one after the other is writing the nested concatenation; an empty last part may be left out. */
  lemma Nested(w: Buffer, a: Buffer, b: Buffer, c: Buffer, d: Buffer)
    ensures w + a + b + c + d == w + (a + (b + (c + d)))
    ensures d == [] ==> w + a + b + c == w + (a + (b + (c + d)))
  {
  }

  lemma NestedThree(w: Buffer, a: Buffer, b: Buffer, c: Buffer)
    ensures w + a + b + c == w + (a + (b + c))
    ensures c == [] ==> w + a + b == w + (a + (b + c))
  {
  }

  lemma Headed(b: Block, now: u32, done: Buffer)
    requires Acceptable(b, now) && b.PayloadLen() < 0x1_0000
    requires done == [b.Type()] + BE16(b.PayloadLen()) + EncodePayload(b, now)
    ensures done == EncodeBlock(b, now)
  {
    Assoc([b.Type()], BE16(b.PayloadLen()), EncodePayload(b, now));
  }

  /** A buffer filled with a type, a size and a payload is that block. */
  lemma Framing(b: Block, now: u32, buf: Buffer, done: Buffer)
    requires Acceptable(b, now) && |done| <= |buf| && done == buf[..|done|]
    requires |buf| == HEADER_LEN + b.PayloadLen() && b.PayloadLen() < 0x1_0000
    requires done == [b.Type()] + BE16(b.PayloadLen()) + EncodePayload(b, now)
    ensures buf == EncodeBlock(b, now)
  {
    assert |done| == |buf|;
    Headed(b, now, done);
  }

  /** A buffer that begins with what was written and goes on as before. */
  lemma Kept(b: Buffer, old_: Buffer, e: Buffer)
    requires |b| == |old_| >= |e| && b[..|e|] == e && b[|e|..] == old_[|e|..]
    ensures b == e + old_[|e|..]
  {
    assert b == b[..|e|] + b[|e|..];
  }

  lemma TwoParts(done: Buffer, buf: Buffer, t: Buffer, n: Buffer, p: Buffer)
    requires |done| <= |buf| && done == buf[..|done|] && |t| == 1 && |n| == 2
    ensures |buf| == |done| ==> buf == done
    ensures n == [0, 0] && t == [PADDING] ==> t + n == [PADDING, 0, 0]
    ensures p == [] ==> t + n == t + n + p
  {
  }

  method ReadHeader(reader: Reader) returns (ok: bool, t: byte, size: u16)
    requires reader.Valid() && reader.pos == 0
    modifies reader
    ensures reader.Valid() && ok == (|reader.buf| >= HEADER_LEN)
    ensures ok ==> t == reader.buf[0] && size == FromBE16(reader.buf[1..3]) && reader.Rest() == reader.buf[3..]
  {
    var d;
    size := 0;
    ok, t := reader.ReadByte();
    if !ok { return; }
    ok, d := reader.ReadData(2);
    if !ok { return; }
    assert d == reader.buf[1..3];
    size := FromBE16(d);
  }

  /** All that is left; without any, the object keeps what it had. */
  method ReadRemaining(reader: Reader, before: Buffer) returns (d: Buffer)
    requires reader.Valid()
    modifies reader
    ensures d == if old(reader.Rest()) == [] then before else old(reader.Rest())
  {
    d := before;
    if reader.GCount() != 0 {
      assert reader.Rest()[..|reader.Rest()|] == reader.Rest();
      var _, d' := reader.ReadData(reader.GCount());
      d := d';
    }
  }

  // ---------------------------------------------------------------- what a block object reads from its buffer

  ghost function ReadDateTime(buf: Buffer, now: u32): Option<Block> {
    if |buf| < HEADER_LEN + 4 || buf[0] != DATE_TIME then None
    else if FromBE16(buf[1..3]) != 4 || !LagOk(now, FromBE32(buf[3..7])) then None
    else Some(DateTime(FromBE32(buf[3..7])))
  }

  lemma Four(b: Buffer)
    requires |b| == 2
    ensures FromBE16(b) == 4 <==> b == [0, 4]
  {
  }

  /** A date block is read exactly when its type and size are right and its timestamp is recent. */
  lemma DateTimeExactly(buf: Buffer, now: u32)
    ensures var r := ReadDateTime(buf, now);
      if && |buf| >= 7 && buf[0] == 0 && buf[1..3] == [0, 4]
         && Recent(now as nat, BigEndian(buf[3..7]))
      then r.Some? && r.value.DateTime? && r.value.timestamp as nat == BigEndian(buf[3..7]) else r == None
  {
    if |buf| >= 7 {
      Four(buf[1..3]);
      ByteOrder32(buf[3..7]);
      RecentExactly(now, FromBE32(buf[3..7]));
    }
  }

  /** The message is all that is left of the buffer; without any, the object keeps the one it had. */
  ghost function ReadI2NP(buf: Buffer, msg: Buffer, now: u32): Option<Block> {
    if |buf| < HEADER_LEN + MSG_HEADER_LEN || buf[0] != I2NP_MSG then None
    else if !(MSG_HEADER_LEN <= FromBE16(buf[1..3]) <= MAX_MSG_LEN) then None
    else if !MsgTypeOk(buf[3]) || now >= FromBE32(buf[8..12]) then None
    else Some(I2NP(buf[3], FromBE32(buf[4..8]), FromBE32(buf[8..12]), if |buf| == 12 then msg else buf[12..]))
  }

  ghost function ReadOptions(buf: Buffer): Option<Block> {
    if |buf| != HEADER_LEN + 12 || buf[0] != OPTIONS || FromBE16(buf[1..3]) != 12 then None
    else ParseBlockOptions(buf[3..])
  }

  ghost function ReadPadding(buf: Buffer, padding: Buffer): Option<Block> {
    if |buf| < HEADER_LEN || buf[0] != PADDING then None else
    var n := FromBE16(buf[1..3]) as nat;
    if n > MAX_PADDING_LEN || |buf| < HEADER_LEN + n then None
    else Some(Padding(if n == 0 then padding else buf[3..3 + n]))
  }

  ghost function ReadTermination(buf: Buffer, ad: Buffer): Option<Block> {
    if |buf| < HEADER_LEN + TERM_HEADER_LEN || buf[0] != TERMINATION then None
    else if !(TERM_HEADER_LEN <= FromBE16(buf[1..3]) <= MAX_LEN) || !ReasonOk(buf[11]) then None
    else Some(Termination(buf[11], FromBE64(buf[3..11]), if |buf| == 12 then ad else buf[12..]))
  }

  /** A zero size leaves less than no bytes for the RouterInfo. */
  ghost function InfoPayload(buf: Buffer): Option<Buffer> {
    if |buf| < HEADER_LEN || buf[0] != INFO then None else
    var n := FromBE16(buf[1..3]) as nat;
    if n == 0 || |buf| < HEADER_LEN + n then None else Some(buf[3..3 + n])
  }

  ghost function ReadRouterInfo(buf: Buffer, blank: Info): Option<Block>
    requires |blank.identity.cryptoKey| == KEY_LEN
  {
    match InfoPayload(buf)
    case None => None
    case Some(p) => ParseRouterInfo(p, blank)
  }

  lemma FramedDateTime(buf: Buffer, env: Env)
    requires Framed(buf) && env.Valid() && buf[0] == DATE_TIME
    ensures ReadDateTime(buf, env.now) == ParsePayload(DATE_TIME, buf[3..], env)
  {
    if |buf| == 7 {
      assert buf[3..] == buf[3..7];
    }
  }

  lemma FramedPadding(buf: Buffer, env: Env)
    requires Framed(buf) && env.Valid() && buf[0] == PADDING
    ensures ReadPadding(buf, []) == ParsePayload(PADDING, buf[3..], env)
  {
    ToTheEnd(buf, HEADER_LEN, |buf|);
  }

  lemma WholePayload(buf: Buffer)
    requires Framed(buf) && buf[0] == INFO
    ensures InfoPayload(buf) == if buf[3..] == [] then None else Some(buf[3..])
  {
    ToTheEnd(buf, HEADER_LEN, |buf|);
  }

  lemma FramedInfo(buf: Buffer, env: Env)
    requires Framed(buf) && env.Valid() && buf[0] == INFO
    ensures ReadRouterInfo(buf, env.blank) == ParsePayload(INFO, buf[3..], env)
  {
    WholePayload(buf);
  }

  lemma FramedMessage(buf: Buffer, env: Env)
    requires Framed(buf) && env.Valid() && buf[0] == I2NP_MSG
    ensures ReadI2NP(buf, [], env.now) == ParsePayload(I2NP_MSG, buf[3..], env)
  {
    var p := buf[3..];
    if |p| >= 9 {
      assert p[0] == buf[3] && p[1..5] == buf[4..8] && p[5..9] == buf[8..12] && p[9..] == buf[12..];
    }
  }

  lemma FramedTermination(buf: Buffer, env: Env)
    requires Framed(buf) && env.Valid() && buf[0] == TERMINATION
    ensures ReadTermination(buf, []) == ParsePayload(TERMINATION, buf[3..], env)
  {
    var p := buf[3..];
    if |p| >= 9 {
      assert p[..8] == buf[3..11] && p[8] == buf[11] && p[9..] == buf[12..];
    }
  }

  /** What a new object of the type in the header reads. */
  ghost function ReadNew(buf: Buffer, env: Env): Option<Block>
    requires |buf| >= HEADER_LEN && env.Valid()
  {
    var t := buf[0];
    if t == DATE_TIME then ReadDateTime(buf, env.now)
    else if t == I2NP_MSG then ReadI2NP(buf, [], env.now)
    else if t == INFO then ReadRouterInfo(buf, env.blank)
    else if t == OPTIONS then ReadOptions(buf)
    else if t == PADDING then ReadPadding(buf, [])
    else if t == TERMINATION then ReadTermination(buf, [])
    else None
  }

  /** From a buffer that holds exactly one block, it reads that block. */
  lemma FramedRead(buf: Buffer, env: Env)
    requires Framed(buf) && env.Valid()
    ensures ReadNew(buf, env) == ParsePayload(buf[0], buf[3..], env)
  {
    var t := buf[0];
    if t == DATE_TIME { FramedDateTime(buf, env); }
    if t == I2NP_MSG { FramedMessage(buf, env); }
    if t == INFO { FramedInfo(buf, env); }
    if t == PADDING { FramedPadding(buf, env); }
    if t == TERMINATION { FramedTermination(buf, env); }
  }

  class DateTimeBlock {
    var timestamp: u32
    var size: u16
    var buf: Buffer

    function Contents(): Block
      reads this
    {
      DateTime(timestamp)
    }

    constructor (timestamp: u32)
      ensures Contents() == DateTime(timestamp) && size == 4 && |buf| == HEADER_LEN + 4
    {
      this.timestamp, size, buf := timestamp, 4, Zeros(HEADER_LEN + 4);
    }

    /** The buffer keeps its size: one that a block without a payload was read into is too small. */
    method Serialize(now: u32) returns (ok: bool)
      modifies this`buf
      ensures ok <==> size == 4 && Recent(now as nat, timestamp as nat) && 7 <= |old(buf)|
      ensures ok ==> buf == EncodeBlock(Contents(), now) + old(buf)[HEADER_LEN + 4..]
    {
      RecentExactly(now, timestamp);
      ok := size == 4 && LagOk(now, timestamp) && HEADER_LEN <= |buf|;
      if !ok { return; }
      var writer := new Writer(buf);
      ok := WriteHeader(writer, DATE_TIME, size);
      if |buf| >= HEADER_LEN + 4 {
        SameTail(writer.buf, buf, HEADER_LEN, HEADER_LEN + 4);
      }
      ok := writer.WriteData(BE32(timestamp));
      buf := writer.buf;
      if ok {
        Assoc([DATE_TIME], BE16(4), BE32(timestamp));
        Kept(buf, old(buf), EncodeBlock(Contents(), now));
      }
    }

    method Deserialize(now: u32) returns (ok: bool)
      modifies this
      ensures buf == old(buf)
      ensures ReadDateTime(buf, now) == if ok then Some(Contents()) else None
      ensures ok <==> |buf| >= 7 && buf[0] == 0 && buf[1..3] == [0, 4] && Recent(now as nat, BigEndian(buf[3..7]))
      ensures ok ==> timestamp as nat == BigEndian(buf[3..7]) && size as nat == Contents().PayloadLen()
    {
      DateTimeExactly(buf, now);
      var reader := new Reader(buf);
      var t, d;
      ok, t, size := ReadHeader(reader);
      if !ok { return; }
      ok, d := reader.ReadData(4);
      if !ok { return; }
      Slices(buf, 3, 4);
      timestamp := FromBE32(d);
      ok := t == DATE_TIME && size == 4 && LagOk(now, timestamp);
    }
  }

  class I2NPBlock {
    var msgType: byte
    var msgId: u32
    var exp: u32
    var msg: Buffer
    var size: u16
    var buf: Buffer

    function Contents(): Block
      reads this
    {
      I2NP(msgType, msgId, exp, msg)
    }

    constructor (msgType: byte, msgId: u32, exp: u32, msg: Buffer)
      ensures Contents() == I2NP(msgType, msgId, exp, msg)
    {
      this.msgType, this.msgId, this.exp, this.msg := msgType, msgId, exp, msg;
      size, buf := MSG_HEADER_LEN, [];
    }

    /** The size field wraps at 16 bits before it is checked; a message long enough to wrap past the check
        then overflows the buffer, so it is rejected all the same. */
    method Serialize(now: u32) returns (ok: bool)
      modifies this`size, this`buf
      ensures ok <==> Acceptable(Contents(), now)
      ensures ok ==> buf == EncodeBlock(Contents(), now) && size as nat == Contents().PayloadLen()
    {
      size := (MSG_HEADER_LEN + |msg|) % 0x1_0000;
      if size < MSG_HEADER_LEN || size > MAX_MSG_LEN || !MsgTypeOk(msgType) || now >= exp {
        return false;
      }
      buf := Resized(buf, HEADER_LEN + size);
      var writer := new Writer(buf);
      ok := WriteHeader(writer, I2NP_MSG, size);
      ok := WriteMessage(writer);
      if !ok { return; }
      buf := writer.buf;
      Framing(Contents(), now, buf, writer.Done());
    }

    method WriteMessage(writer: Writer) returns (ok: bool)
      requires writer.Valid() && writer.pos + MSG_HEADER_LEN <= |writer.buf|
      modifies writer
      ensures writer.Valid() && |writer.buf| == |old(writer.buf)|
      ensures ok <==> old(writer.pos) + MSG_HEADER_LEN + |msg| <= |writer.buf|
      ensures ok ==> writer.Done() == old(writer.Done()) + ([msgType] + (BE32(msgId) + (BE32(exp) + msg)))
    {
      ok := writer.WriteData([msgType]);
      ok := writer.WriteData(BE32(msgId));
      ok := writer.WriteData(BE32(exp));
      if |msg| != 0 {
        ok := writer.WriteData(msg);
      }
      Nested(old(writer.Done()), [msgType], BE32(msgId), BE32(exp), msg);
    }

    /** The fields in front of the message. */
    method ReadFields(reader: Reader) returns (ok: bool)
      requires reader.Valid() && reader.pos == HEADER_LEN
      modifies reader, `msgType, `msgId, `exp
      ensures reader.Valid() && ok == (|reader.buf| >= HEADER_LEN + MSG_HEADER_LEN)
      ensures ok ==> reader.Rest() == reader.buf[12..]
      ensures ok ==> msgType == reader.buf[3] && msgId == FromBE32(reader.buf[4..8])
      ensures ok ==> exp == FromBE32(reader.buf[8..12])
    {
      var d;
      ok, msgType := reader.ReadByte();
      if !ok { return; }
      Slices(reader.buf, 3, 1);
      ok, d := reader.ReadData(4);
      if !ok { return; }
      Slices(reader.buf, 4, 4);
      msgId := FromBE32(d);
      ok, d := reader.ReadData(4);
      if !ok { return; }
      Slices(reader.buf, 8, 4);
      exp := FromBE32(d);
    }

    method Deserialize(now: u32) returns (ok: bool)
      modifies this
      ensures buf == old(buf)
      ensures ReadI2NP(buf, old(msg), now) == if ok then Some(Contents()) else None
      ensures ok ==> size == FromBE16(buf[1..3])
    {
      var reader := new Reader(buf);
      var t;
      ok, t, size := ReadHeader(reader);
      if !ok { return; }
      ok := ReadFields(reader);
      if !ok { return; }
      ok := t == I2NP_MSG && MSG_HEADER_LEN <= size && size <= MAX_MSG_LEN && MsgTypeOk(msgType) && now < exp;
      if ok {
        msg := ReadRemaining(reader, msg);
      }
    }
  }

  // ---------------------------------------------------------------- options

  /** The fields at their places, from a reader that takes four bytes first. */
  lemma OptionFields(p: Buffer)
    requires |p| == 12
    ensures var (d, w) := (p[..4], p[4..]);
      ParseBlockOptions(p) == Some(Options(ByteRatio(d[0]), ByteRatio(d[1]), ByteRatio(d[2]), ByteRatio(d[3]),
                                           FromBE16(w[..2]), FromBE16(w[2..4]), FromBE16(w[4..6]), FromBE16(w[6..8])))
  {
    var w := p[4..];
    assert w[..2] == p[4..6] && w[2..4] == p[6..8] && w[4..6] == p[8..10] && w[6..8] == p[10..12];
  }

  class OptionsBlock {
    var tmin: Ratio
    var tmax: Ratio
    var rmin: Ratio
    var rmax: Ratio
    var tdummy: u16
    var rdummy: u16
    var tdelay: u16
    var rdelay: u16
    var size: u16
    var buf: Buffer

    function Contents(): Block
      reads this
    {
      Options(tmin, tmax, rmin, rmax, tdummy, rdummy, tdelay, rdelay)
    }

    constructor (b: Block)
      requires b.Options?
      ensures Contents() == b && size == 12 && |buf| == HEADER_LEN + 12
    {
      tmin, tmax, rmin, rmax := b.tmin, b.tmax, b.rmin, b.rmax;
      tdummy, rdummy, tdelay, rdelay := b.tdummy, b.rdummy, b.tdelay, b.rdelay;
      size, buf := 12, Zeros(HEADER_LEN + 12);
    }

    method Serialize(now: u32) returns (ok: bool)
      modifies this`buf
      ensures ok <==> size == 12 && Acceptable(Contents(), now) && HEADER_LEN + 12 <= |old(buf)|
      ensures ok ==> buf == EncodeBlock(Contents(), now) + old(buf)[HEADER_LEN + 12..]
    {
      ok := size == 12 && RatioOk(tmin) && RatioOk(tmax) && RatioOk(rmin) && RatioOk(rmax) && HEADER_LEN <= |buf|;
      if !ok { return; }
      var writer := new Writer(buf);
      ok := WriteHeader(writer, OPTIONS, size);
      if |buf| < HEADER_LEN + 12 {
        return false;
      }
      WriteFields(writer);
      buf := writer.buf;
      Headed(Contents(), now, writer.Done());
      Kept(buf, old(buf), writer.Done());
    }

    /** Four ratios and four words. */
    method WriteFields(writer: Writer)
      requires writer.Valid() && writer.pos + 12 <= |writer.buf|
      requires RatioOk(tmin) && RatioOk(tmax) && RatioOk(rmin) && RatioOk(rmax)
      modifies writer
      ensures writer.Valid() && |writer.buf| == |old(writer.buf)|
      ensures writer.Done() == old(writer.Done())
        + ([RatioByte(tmin), RatioByte(tmax), RatioByte(rmin), RatioByte(rmax)]
           + (BE16(tdummy) + (BE16(rdummy) + (BE16(tdelay) + BE16(rdelay)))))
      ensures writer.buf[writer.pos..] == old(writer.buf)[writer.pos..]
    {
      ghost var (b, p) := (writer.buf, writer.pos);
      var ratios := [RatioByte(tmin), RatioByte(tmax), RatioByte(rmin), RatioByte(rmax)];
      var ok := writer.WriteData(ratios);
      SameTail(writer.buf, b, p + 4, p + 12);
      WriteWords(writer);
      Assoc(old(writer.Done()), ratios, BE16(tdummy) + (BE16(rdummy) + (BE16(tdelay) + BE16(rdelay))));
    }

    method WriteWords(writer: Writer)
      requires writer.Valid() && writer.pos + 8 <= |writer.buf|
      modifies writer
      ensures writer.Valid() && |writer.buf| == |old(writer.buf)|
      ensures writer.Done() == old(writer.Done()) + (BE16(tdummy) + (BE16(rdummy) + (BE16(tdelay) + BE16(rdelay))))
      ensures writer.buf[writer.pos..] == old(writer.buf)[writer.pos..]
    {
      ghost var (b, p) := (writer.buf, writer.pos);
      var ok := writer.WriteData(BE16(tdummy));
      SameTail(writer.buf, b, p + 2, p + 8);
      ok := writer.WriteData(BE16(rdummy));
      SameTail(writer.buf, b, p + 4, p + 8);
      ok := writer.WriteData(BE16(tdelay));
      SameTail(writer.buf, b, p + 6, p + 8);
      ok := writer.WriteData(BE16(rdelay));
      Nested(old(writer.Done()), BE16(tdummy), BE16(rdummy), BE16(tdelay), BE16(rdelay));
    }

    method Deserialize() returns (ok: bool)
      modifies this
      ensures buf == old(buf)
      ensures ReadOptions(buf) == if ok then Some(Contents()) else None
      ensures ok ==> size as nat == Contents().PayloadLen()
    {
      if |buf| != HEADER_LEN + 12 {
        return false;
      }
      var reader := new Reader(buf);
      var t;
      ok, t, size := ReadHeader(reader);
      ReadFields(reader);
      ok := t == OPTIONS && size == 12 && RatioOk(tmin) && RatioOk(tmax) && RatioOk(rmin) && RatioOk(rmax);
    }

    method ReadFields(reader: Reader)
      requires reader.Valid() && |reader.Rest()| == 12
      modifies reader, `tmin, `tmax, `rmin, `rmax, `tdummy, `rdummy, `tdelay, `rdelay
      ensures ParseBlockOptions(old(reader.Rest())) == Some(Contents())
    {
      ghost var p := reader.Rest();
      var ok, d;
      ok, d := reader.ReadData(4);
      tmin, tmax, rmin, rmax := ByteRatio(d[0]), ByteRatio(d[1]), ByteRatio(d[2]), ByteRatio(d[3]);
      ReadWords(reader);
      OptionFields(p);
    }

    method ReadWords(reader: Reader)
      requires reader.Valid() && |reader.Rest()| == 8
      modifies reader, `tdummy, `rdummy, `tdelay, `rdelay
      ensures reader.Valid()
      ensures var w := old(reader.Rest());
        (tdummy, rdummy, tdelay, rdelay) == (FromBE16(w[..2]), FromBE16(w[2..4]), FromBE16(w[4..6]), FromBE16(w[6..8]))
    {
      var ok, d;
      ok, d := reader.ReadData(2);
      tdummy := FromBE16(d);
      ok, d := reader.ReadData(2);
      rdummy := FromBE16(d);
      ok, d := reader.ReadData(2);
      tdelay := FromBE16(d);
      ok, d := reader.ReadData(2);
      rdelay := FromBE16(d);
    }
  }

  class PaddingBlock {
    var padding: Buffer
    var size: u16
    var buf: Buffer

    function Contents(): Block
      reads this
    {
      Padding(padding)
    }

    constructor (padding: Buffer)
      ensures Contents() == Padding(padding)
    {
      this.padding, size, buf := padding, 0, [];
    }

    /** The size is taken in 16 bits; the padding is drawn anew. A size that wraps to zero writes no padding,
        and any other that wraps overflows the buffer. */
    method Serialize(now: u32, random: Buffer) returns (ok: bool)
      requires |random| == |padding|
      modifies this
      ensures ok <==> Acceptable(old(Contents()), now) || |random| % 0x1_0000 == 0
      ensures ok ==> padding == random && size == |padding| % 0x1_0000
      ensures ok && Acceptable(Contents(), now) ==> buf == EncodeBlock(Contents(), now)
      ensures ok && !Acceptable(Contents(), now) ==> buf == [PADDING, 0, 0]
    {
      size := |padding| % 0x1_0000;
      if size > MAX_PADDING_LEN {
        return false;
      }
      buf := Resized(buf, HEADER_LEN + size);
      padding := random;
      var writer := new Writer(buf);
      ok := WriteHeader(writer, PADDING, size);
      if size != 0 {
        ok := writer.WriteData(padding);
        if !ok { return; }
      }
      buf := writer.buf;
      Assoc([PADDING], BE16(size), padding);
      TwoParts(writer.Done(), buf, [PADDING], BE16(size), padding);
    }

    method Deserialize() returns (ok: bool)
      modifies this
      ensures buf == old(buf)
      ensures ReadPadding(buf, old(padding)) == if ok then Some(Contents()) else None
      ensures ok ==> size == FromBE16(buf[1..3])
    {
      var reader := new Reader(buf);
      var t, d;
      ok, t, size := ReadHeader(reader);
      if !ok { return; }
      ok := t == PADDING && size <= MAX_PADDING_LEN;
      if ok && size != 0 {
        ok, d := reader.ReadData(size);
        if ok {
          Slices(buf, 3, size);
          padding := d;
        }
      }
    }
  }

  class TerminationBlock {
    var reason: byte
    var frames: u64
    var ad: Buffer
    var size: u16
    var buf: Buffer

    function Contents(): Block
      reads this
    {
      Termination(reason, frames, ad)
    }

    constructor (reason: byte, frames: u64, ad: Buffer)
      ensures Contents() == Termination(reason, frames, ad)
    {
      this.reason, this.frames, this.ad := reason, frames, ad;
      size, buf := TERM_HEADER_LEN, [];
    }

    method Serialize(now: u32) returns (ok: bool)
      modifies this`size, this`buf
      ensures ok <==> Acceptable(Contents(), now)
      ensures ok ==> buf == EncodeBlock(Contents(), now) && size as nat == Contents().PayloadLen()
    {
      size := (TERM_HEADER_LEN + |ad|) % 0x1_0000;
      if size < TERM_HEADER_LEN || size > MAX_LEN || !ReasonOk(reason) {
        return false;
      }
      buf := Resized(buf, HEADER_LEN + size);
      var writer := new Writer(buf);
      ok := WriteHeader(writer, TERMINATION, size);
      ok := WriteReason(writer);
      if !ok { return; }
      buf := writer.buf;
      Framing(Contents(), now, buf, writer.Done());
    }

    method WriteReason(writer: Writer) returns (ok: bool)
      requires writer.Valid() && writer.pos + TERM_HEADER_LEN <= |writer.buf|
      modifies writer
      ensures writer.Valid() && |writer.buf| == |old(writer.buf)|
      ensures ok <==> old(writer.pos) + TERM_HEADER_LEN + |ad| <= |writer.buf|
      ensures ok ==> writer.Done() == old(writer.Done()) + (BE64(frames) + ([reason] + ad))
    {
      ok := writer.WriteData(BE64(frames));
      ok := writer.WriteData([reason]);
      if |ad| != 0 {
        ok := writer.WriteData(ad);
      }
      NestedThree(old(writer.Done()), BE64(frames), [reason], ad);
    }

    /** The fields in front of the additional data. */
    method ReadFields(reader: Reader) returns (ok: bool)
      requires reader.Valid() && reader.pos == HEADER_LEN
      modifies reader, `reason, `frames
      ensures reader.Valid() && ok == (|reader.buf| >= HEADER_LEN + TERM_HEADER_LEN)
      ensures ok ==> reader.Rest() == reader.buf[12..]
      ensures ok ==> frames == FromBE64(reader.buf[3..11]) && reason == reader.buf[11]
    {
      var d;
      ok, d := reader.ReadData(8);
      if !ok { return; }
      Slices(reader.buf, 3, 8);
      frames := FromBE64(d);
      ok, reason := reader.ReadByte();
      if !ok { return; }
      Slices(reader.buf, 11, 1);
    }

    method Deserialize() returns (ok: bool)
      modifies this
      ensures buf == old(buf)
      ensures ReadTermination(buf, old(ad)) == if ok then Some(Contents()) else None
      ensures ok ==> size == FromBE16(buf[1..3])
    {
      var reader := new Reader(buf);
      var t;
      ok, t, size := ReadHeader(reader);
      if !ok { return; }
      ok := ReadFields(reader);
      if !ok { return; }
      ok := t == TERMINATION && TERM_HEADER_LEN <= size && size <= MAX_LEN && ReasonOk(reason);
      if ok {
        ad := ReadRemaining(reader, ad);
      }
    }
  }

  /** A new RouterInfo from bytes, its identity starting out with the keys given. */
  method NewInfo(d: Buffer, keys: Identity, scheme: Scheme) returns (ok: bool, info: Infos.RouterInfo)
    requires scheme.Correct() && keys.Valid() && |keys.buf| == IDENT_SIZE && |keys.cert.buffer| == KEY_CERT_SIZE
    modifies keys, keys.cert
    ensures fresh(info) && fresh(info.options) && info.identity == keys
    ensures var p := ParseInfo(d, Info(old(keys.Contents()), 0, [], [], []), KEY_CERT_SIZE);
      ok == p.Some? && (ok ==> info.Valid() && info.Contents() == p.value.0)
  {
    info := new Infos.RouterInfo(keys, scheme);
    info.buf := d;
    ok := info.Deserialize();
  }

  /** The payload of a RouterInfo block: the flag, and a RouterInfo that accounts for all the rest. */
  method ReadInfo(flag: byte, d: Buffer, keys: Identity, scheme: Scheme) returns (ok: bool, info: Infos.RouterInfo)
    requires scheme.Correct() && keys.Valid() && |keys.buf| == IDENT_SIZE && |keys.cert.buffer| == KEY_CERT_SIZE
    modifies keys, keys.cert
    ensures ok ==> info.Valid() && |d| == info.Contents().Size()
    ensures ParseRouterInfo([flag] + d, Info(old(keys.Contents()), 0, [], [], []))
      == if ok then Some(RouterInfo(flag, Some(info.Contents()))) else None
  {
    assert ([flag] + d)[1..] == d;
    ok, info := NewInfo(d, keys, scheme);
    if ok {
      var n := info.Size();
      ok := flag <= 1 && 1 + MIN_INFO_LEN <= 1 + |d| && 1 + |d| <= 1 + MAX_LEN && |d| == n;
    }
  }

  lemma OfPayload(buf: Buffer, flag: byte, d: Buffer, blank: Info)
    requires |buf| >= HEADER_LEN && FromBE16(buf[1..3]) as nat == 1 + |d| <= |buf| - HEADER_LEN
    requires buf[3..4 + |d|] == [flag] + d && |blank.identity.cryptoKey| == KEY_LEN
    ensures ReadRouterInfo(buf, blank) == if buf[0] == INFO then ParseRouterInfo([flag] + d, blank) else None
  {
  }

  lemma Filled(buf: Buffer, done: Buffer)
    requires |done| == |buf| && done == buf[..|done|]
    ensures done == buf
  {
  }

  lemma FlagAndRest(b: Buffer, size: u16)
    requires 0 < size && 3 + size <= |b|
    ensures b[3..3 + size] == [b[3..][0]] + b[3..][1..][..size - 1]
  {
  }

  /** The flag, and the bytes of the RouterInfo. */
  method ReadPayload(buf: Buffer) returns (ok: bool, t: byte, size: u16, flag: byte, d: Buffer)
    ensures ok <==> |buf| >= HEADER_LEN && 0 < FromBE16(buf[1..3]) as nat <= |buf| - HEADER_LEN
    ensures ok ==> t == buf[0] && size == FromBE16(buf[1..3]) && size as nat == 1 + |d|
    ensures ok ==> buf[3..3 + size as nat] == [flag] + d
  {
    var reader := new Reader(buf);
    flag, d := 0, [];
    ok, t, size := ReadHeader(reader);
    if !ok { return; }
    ok, flag := reader.ReadByte();
    if !ok || size == 0 {
      return false, t, size, flag, d;
    }
    ok, d := reader.ReadData(size - 1);
    if ok {
      FlagAndRest(buf, size);
    }
  }

  method ReadBlock(buf: Buffer, keys: Identity, scheme: Scheme)
    returns (ok: bool, flag: byte, size: u16, info: Infos.RouterInfo?)
    requires scheme.Correct() && keys.Valid() && |keys.buf| == IDENT_SIZE && |keys.cert.buffer| == KEY_CERT_SIZE
    modifies keys, keys.cert
    ensures ok ==> info != null && info.Valid() && size as nat == 1 + info.Contents().Size()
    ensures ReadRouterInfo(buf, Info(old(keys.Contents()), 0, [], [], []))
      == if ok then Some(RouterInfo(flag, Some(info.Contents()))) else None
  {
    var t, d;
    info := null;
    ok, t, size, flag, d := ReadPayload(buf);
    if !ok { return; }
    OfPayload(buf, flag, d, Info(keys.Contents(), 0, [], [], []));
    ok, info := ReadInfo(flag, d, keys, scheme);
    ok := ok && t == INFO;
  }

  /** Serializes a RouterInfo anew and writes its bytes. */
  method WriteInfo(writer: Writer, info: Infos.RouterInfo, date: u64, random: Buffer)
    returns (ok: bool, ghost e: Buffer)
    requires info.Valid() && info.Usable() && |random| == PADDING_LEN
    requires writer.Valid() && writer.pos + info.Contents().Size() <= |writer.buf|
    modifies writer, info`date, info`signature, info`signatureKind, info`buf
    modifies info.identity, info.identity.cert, info.options`buffer
    ensures writer.Valid() && |writer.buf| == |old(writer.buf)| && ok == old(info.Contents().Signable())
    ensures ok ==> info.Valid() && info.Usable() && info.Contents().Valid() && |info.signature| == SIG_LEN
    ensures ok ==> info.Contents() == old(info.Contents()).(
      identity := old(info.Contents()).identity.(padding := random), date := date, signature := info.signature)
    ensures ok ==> info.Contents().SignedBy(info.scheme)
    ensures ok ==> e == EncodeInfo(info.Contents()) && writer.Done() == old(writer.Done()) + e
  {
    ok := info.Serialize(date, random);
    e := info.buf;
    if ok {
      ok := writer.WriteData(info.buf);
    }
  }

  /** A whole RouterInfo block, over what a buffer held before. */
  method WriteAll(before: Buffer, flag: byte, size: u16, info: Infos.RouterInfo, date: u64, random: Buffer)
    returns (ok: bool, buf: Buffer, ghost e: Buffer)
    requires info.Valid() && info.Usable() && |random| == PADDING_LEN && size as nat == 1 + info.Contents().Size()
    modifies info`date, info`signature, info`signatureKind, info`buf
    modifies info.identity, info.identity.cert, info.options`buffer
    ensures ok == old(info.Contents().Signable())
    ensures ok ==> info.Valid() && info.Usable() && info.Contents().Valid() && |info.signature| == SIG_LEN
    ensures ok ==> info.Contents() == old(info.Contents()).(
      identity := old(info.Contents()).identity.(padding := random), date := date, signature := info.signature)
    ensures ok ==> info.Contents().SignedBy(info.scheme)
    ensures ok ==> e == EncodeInfo(info.Contents()) && buf == [INFO] + BE16(size) + [flag] + e
  {
    var writer := new Writer(Resized(before, HEADER_LEN + size));
    ok := WriteHeader(writer, INFO, size);
    ok := writer.WriteData([flag]);
    ok, e := WriteInfo(writer, info, date, random);
    buf := writer.buf;
    if ok {
      Filled(buf, writer.Done());
    }
  }

  /** A serialized RouterInfo of the right size makes an acceptable block. */
  lemma InfoBytes(flag: byte, v: Info, size: u16, now: u32)
    requires v.Valid() && |v.signature| == SIG_LEN && flag <= 1
    requires 1 + MIN_INFO_LEN <= size && size <= 1 + MAX_LEN && size as nat == 1 + v.Size()
    ensures var b := RouterInfo(flag, Some(v));
      Acceptable(b, now) && EncodeBlock(b, now) == [INFO] + BE16(size) + [flag] + EncodeInfo(v)
  {
    NestedThree([INFO], BE16(size), [flag], EncodeInfo(v));
  }

  /** A RouterInfo block that serializes: with a RouterInfo, of the size in its size field. */
  ghost predicate Sized(b: Block, size: u16) {
    && b.RouterInfo? && b.info.Some? && b.flag <= 1 && 1 + MIN_INFO_LEN <= size as nat <= 1 + MAX_LEN
    && size as nat == 1 + b.info.value.Size() && b.info.value.Signable()
  }

  /** Checks the block's parameters first. */
  method WriteSized(before: Buffer, flag: byte, size: u16, info: Infos.RouterInfo, now: u32, date: u64,
                    random: Buffer) returns (ok: bool, buf: Buffer)
    requires info.Valid() && info.Usable() && |random| == PADDING_LEN
    modifies info`date, info`signature, info`signatureKind, info`buf
    modifies info.identity, info.identity.cert, info.options`buffer
    ensures ok == old(Sized(RouterInfo(flag, Some(info.Contents())), size))
    ensures ok ==> info.Valid() && info.Contents() == old(info.Contents()).(
      identity := old(info.Contents()).identity.(padding := random), date := date, signature := info.signature)
    ensures ok ==> info.Contents().Valid() && info.Contents().SignedBy(info.scheme)
    ensures ok ==> var b := RouterInfo(flag, Some(info.Contents()));
      Acceptable(b, now) && buf == EncodeBlock(b, now)
  {
    buf := before;
    var n := info.Size();
    ok := flag <= 1 && 1 + MIN_INFO_LEN <= size && size <= 1 + MAX_LEN && size == 1 + n;
    if ok {
      ghost var e;
      ok, buf, e := WriteAll(buf, flag, size, info, date, random);
    }
    if ok {
      InfoBytes(flag, info.Contents(), size, now);
    }
  }

  class InfoBlock {
    var flag: byte
    var info: Infos.RouterInfo?
    var size: u16
    var buf: Buffer

    /** Everything a RouterInfo consists of. */
    ghost function Parts(): set<object>
      reads this, info
    {
      if info == null then {} else {info, info.identity, info.identity.cert, info.options}
    }

    ghost predicate Valid()
      reads this, info, Parts()
    {
      info != null ==> info.Valid()
    }

    function Contents(): Block
      reads this, info, Parts()
    {
      RouterInfo(flag, if info == null then None else Some(info.Contents()))
    }

    /** Without a RouterInfo, as constructed before reading one. */
    constructor ()
      ensures Valid() && Contents() == RouterInfo(1, None)
    {
      flag, info, size, buf := 1, null, 1 + MIN_INFO_LEN, [];
    }

    constructor FromInfo(flag: byte, info: Infos.RouterInfo)
      requires info.Valid()
      ensures Valid() && this.info == info && Contents() == RouterInfo(flag, Some(info.Contents()))
      ensures size as nat == Contents().PayloadLen() % 0x1_0000
    {
      this.flag, this.info, buf := flag, info, [];
      new;
      var n := info.Size();
      size := (1 + n) % 0x1_0000;
    }

    /** Serializes the RouterInfo anew, with a current date, fresh padding and a fresh signature. Without a
        RouterInfo, with one whose size is not the block's, or with one of unsupported addresses or of a signing
        key that cannot sign, it throws. */
    method Serialize(now: u32, date: u64, random: Buffer) returns (ok: bool)
      requires Valid() && (info != null ==> info.Usable()) && |random| == PADDING_LEN
      modifies this`buf, Parts()
      ensures ok == old(Sized(Contents(), size))
      ensures ok ==> Valid() && Acceptable(Contents(), now) && buf == EncodeBlock(Contents(), now)
      ensures ok ==> info.Contents() == old(info.Contents()).(
        identity := old(info.Contents()).identity.(padding := random), date := date, signature := info.signature)
      ensures ok ==> info.Contents().SignedBy(info.scheme)
    {
      if info == null {
        return false;
      }
      SameBlock(info);
      ok, buf := WriteSized(buf, flag, size, info, now, date, random);
      if ok {
        SameBlock(info);
      }
    }

    /** Reads into a new RouterInfo, whose identity starts out with the keys given. */
    method Deserialize(keys: Identity, scheme: Scheme) returns (ok: bool)
      requires scheme.Correct()
      requires keys.Valid() && |keys.buf| == IDENT_SIZE && |keys.cert.buffer| == KEY_CERT_SIZE
      modifies this, keys, keys.cert
      ensures buf == old(buf) && (ok ==> Valid())
      ensures ReadRouterInfo(buf, Info(old(keys.Contents()), 0, [], [], [])) == if ok then Some(Contents()) else None
      ensures ok ==> size as nat == Contents().PayloadLen()
    {
      var v;
      ok, flag, size, v := ReadBlock(buf, keys, scheme);
      info := v;
      if ok {
        SameBlock(v);
      }
    }

    /** The contents of a block are those of its RouterInfo. */
    lemma SameBlock(v: Infos.RouterInfo)
      requires v.Valid() && info == v
      ensures Valid() && Contents() == RouterInfo(flag, Some(v.Contents()))
      ensures Contents().PayloadLen() == 1 + v.Contents().Size()
    {
    }
  }
}
