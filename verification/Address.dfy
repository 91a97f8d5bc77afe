/** Router addresses: a fixed header, a transport name and a mapping, read from the front of whatever
    is left of a larger buffer. */
module Addresses {
  import opened Bytes
  import opened Mappings

  const HEADER: nat := 10
  const NTCP: Buffer := [0x6e, 0x74, 0x63, 0x70]
  const NTCP2: Buffer := [0x6e, 0x74, 0x63, 0x70, 0x32]

  /** The contents of an address. */
  datatype Addr = Addr(cost: byte, expiration: u64, transport: Buffer, options: seq<Entry>)
  {
    /** The parameters both serialization and deserialization insist on. */
    predicate ParamsOk() {
      expiration == 0 && (transport == NTCP || transport == NTCP2)
    }

    ghost predicate Valid() {
      ParamsOk() && ValidEntries(options)
    }

    function Size(): nat {
      HEADER + |transport| + Total(options)
    }
  }

  ghost function EncodeHeader(cost: byte, expiration: u64, transport: Buffer): (b: Buffer)
    requires |transport| < 0x100
    ensures |b| == HEADER + |transport|
  {
    [cost] + Native64(expiration) + [|transport|] + transport
  }

  ghost function EncodeAddr(a: Addr): (b: Buffer)
    requires a.Valid()
    ensures |b| == a.Size()
  {
    EncodeHeader(a.cost, a.expiration, a.transport) + Encode(a.options)
  }

  /** The header off the front, and what follows it. */
  ghost function ParseHeader(b: Buffer): Option<(Addr, Buffer)> {
    if |b| < HEADER then None else
    var t: nat := b[9];
    if |b| < HEADER + t then None
    else Some((Addr(b[0], FromNative64(b[1..9]), b[HEADER..HEADER + t], []), b[HEADER + t..]))
  }

  /** A mapping off the front of a buffer, as long as its length field says. */
  ghost function ParseOptions(r: Buffer, old_: seq<Entry>): Option<(seq<Entry>, Buffer)> {
    if |r| < SIZE_SIZE then None else
    var n := SIZE_SIZE + FromNative16(r[..2]);
    if |r| < n then None else
    var m := DeserializeSpec(r[..n], old_);
    if m.ok then Some((m.kv, r[n..])) else None
  }

  /** An address off the front of a buffer, read into an object that holds some options already;
      the remainder is what its length field leaves over. */
  ghost function ParseAddr(b: Buffer, old_: seq<Entry>): Option<(Addr, Buffer)> {
    match ParseHeader(b)
    case None => None
    case Some((a, r)) =>
      if !a.ParamsOk() then None else
      match ParseOptions(r, old_)
      case None => None
      case Some((kv, rest)) => Some((a.(options := kv), rest))
  }

  /** What a new address starts out as, and the bytes it serializes itself into. */
  const BLANK: Addr := Addr(8, 0, NTCP2, [])

  // ---------------------------------------------------------------- the class

  method ReadHeader(reader: Reader) returns (ok: bool, cost: byte, expiration: u64, transport: Buffer)
    requires reader.Valid()
    modifies reader
    ensures reader.Valid()
    ensures ParseHeader(old(reader.Rest()))
      == if ok then Some((Addr(cost, expiration, transport, []), reader.Rest())) else None
  {
    ghost var b := reader.Rest();
    var d, t;
    expiration, transport := 0, [];
    ok, cost := reader.ReadByte();
    if !ok { return; }
    ok, d := reader.ReadData(8);
    if !ok { return; }
    assert d == b[1..9] && reader.Rest() == b[9..];
    ok, t := reader.ReadByte();
    if !ok { return; }
    ok, transport := reader.ReadData(t);
    if !ok { return; }
    expiration := FromNative64(d);
    assert transport == b[HEADER..HEADER + |transport|] && reader.Rest() == b[HEADER + |transport|..];
  }

  class Address {
    var cost: byte
    var expiration: u64
    var transport: Buffer
    const options: Mapping
    var buffer: Buffer

    ghost predicate Valid()
      reads this, options
    {
      options.Valid()
    }

    function Contents(): Addr
      reads this, options
    {
      Addr(cost, expiration, transport, options.kv)
    }

    /** An address with the default transport and no options, serialized at once. */
    constructor ()
      ensures Valid() && fresh(options) && Contents() == BLANK && buffer == EncodeAddr(BLANK)
      ensures cost == 8 && expiration == 0 && transport == NTCP2 && options.kv == [] && |buffer| == 17
    {
      cost, expiration, transport, buffer := BLANK.cost, BLANK.expiration, BLANK.transport, [];
      options := new Mapping();
      new;
      var _ := Serialize();
    }

    constructor FromContents(a: Addr)
      requires ValidEntries(a.options)
      ensures Valid() && fresh(options) && Contents() == a && buffer == []
    {
      cost, expiration, transport, buffer := a.cost, a.expiration, a.transport, [];
      options := new Mapping.FromEntries(a.options);
    }

    method Size() returns (n: nat)
      requires Valid()
      ensures n == Contents().Size()
    {
      var o := options.Size();
      n := HEADER + |transport| + o;
    }

    method Serialize() returns (ok: bool)
      requires Valid()
      modifies this`buffer, options`buffer
      ensures ok == Contents().ParamsOk()
      ensures ok ==> buffer == EncodeAddr(Contents())
    {
      var size := Size();
      buffer := Resized(buffer, size);
      var writer := new Writer(buffer);
      if !Contents().ParamsOk() {
        return false;
      }
      ok := writer.WriteData([cost]);
      ok := writer.WriteData(Native64(expiration));
      ok := writer.WriteData([|transport|]);
      ok := writer.WriteData(transport);
      assert writer.Done() == EncodeHeader(cost, expiration, transport);
      options.Serialize();
      ok := writer.WriteData(options.buffer);
      assert writer.Done() == writer.buf;
      buffer := writer.buf;
    }

    /** Reads from the front of the buffer; what follows the options is not looked at. */
    method Deserialize() returns (ok: bool)
      requires Valid()
      modifies this, options
      ensures Valid() && buffer == old(buffer)
      ensures ok <==> ParseAddr(buffer, old(options.kv)).Some?
      ensures ok ==> Contents() == ParseAddr(buffer, old(options.kv)).value.0
    {
      var reader := new Reader(buffer);
      var c, e, t;
      ok, c, e, t := ReadHeader(reader);
      if !ok { return; }
      cost, expiration, transport := c, e, t;
      if !Contents().ParamsOk() {
        return false;
      }
      ok := ReadOptions(reader);
    }

    /** The length is peeked at without a bounds check; without two bytes left the next read throws. */
    method ReadOptions(reader: Reader) returns (ok: bool)
      requires Valid() && reader.Valid()
      modifies reader, options
      ensures Valid()
      ensures var p := ParseOptions(old(reader.Rest()), old(options.kv));
        ok == p.Some? && (ok ==> options.kv == p.value.0)
    {
      var d;
      if reader.GCount() < SIZE_SIZE {
        return false;
      }
      var optSize := FromNative16(reader.buf[reader.Count()..reader.Count() + 2]);
      Slices(reader.buf, reader.pos, 2);
      ok, d := reader.ReadData(SIZE_SIZE + optSize);
      if !ok { return; }
      options.buffer := d;
      ok := options.Deserialize();
    }
  }

  // ---------------------------------------------------------------- self-delimiting

  lemma HeaderBack(a: Addr, rest: Buffer)
    requires |a.transport| < 0x100
    ensures ParseHeader(EncodeHeader(a.cost, a.expiration, a.transport) + rest) == Some((a.(options := []), rest))
  {
    var (t, e) := (a.transport, Native64(a.expiration));
    var b := EncodeHeader(a.cost, a.expiration, t) + rest;
    assert b[1..9] == e && b[9] == |t| && b[HEADER..HEADER + |t|] == t && b[HEADER + |t|..] == rest;
  }

  lemma OptionsBack(kv: seq<Entry>, old_: seq<Entry>, rest: Buffer)
    requires ValidEntries(kv)
    ensures ParseOptions(Encode(kv) + rest, old_) == Some((if kv == [] then old_ else kv, rest))
  {
    var (m, n) := (Encode(kv), Total(kv));
    assert (m + rest)[..2] == Native16(n - SIZE_SIZE);
    assert (m + rest)[..n] == m && (m + rest)[n..] == rest;
    RoundTrip(kv, old_);
  }

  /** The encoding followed by anything at all reads back as the address; what is left over is what
      followed. Options that were in the object before survive only if the address has none. */
  lemma SelfDelimiting(a: Addr, old_: seq<Entry>, rest: Buffer)
    requires a.Valid()
    ensures ParseAddr(EncodeAddr(a) + rest, old_)
      == Some((a.(options := if a.options == [] then old_ else a.options), rest))
  {
    Assoc(EncodeHeader(a.cost, a.expiration, a.transport), Encode(a.options), rest);
    HeaderBack(a, Encode(a.options) + rest);
    OptionsBack(a.options, old_, rest);
  }

  /** Of an address with any header and valid options: it reads back exactly when it does not expire and its
      transport is one of two. */
  lemma TwoTransports(cost: byte, expiration: u64, transport: Buffer, kv: seq<Entry>, rest: Buffer)
    requires |transport| < 0x100 && ValidEntries(kv)
    ensures ParseAddr(EncodeHeader(cost, expiration, transport) + (Encode(kv) + rest), [])
      == if && expiration == 0
            && (transport == ['n' as int, 't' as int, 'c' as int, 'p' as int]
                || transport == ['n' as int, 't' as int, 'c' as int, 'p' as int, '2' as int])
         then Some((Addr(cost, 0, transport, kv), rest)) else None
  {
    HeaderBack(Addr(cost, expiration, transport, kv), Encode(kv) + rest);
    OptionsBack(kv, [], rest);
  }

  /** The header's places. */
  lemma HeaderPlaces(cost: byte, expiration: u64, transport: Buffer)
    requires |transport| < 0x100
    ensures var b := EncodeHeader(cost, expiration, transport);
      && |b| == 10 + |transport| && b[0] == cost && LittleEndian(b[1..9]) == expiration as nat
      && b[9] as nat == |transport| && b[10..] == transport
  {
    var b := EncodeHeader(cost, expiration, transport);
    assert b[1..9] == Native64(expiration);
    ByteOrderNative(b[1..9]);
  }

  /** The option entries accepted while parsing, repetitions included. */
  ghost function AcceptedOptions(b: Buffer): seq<Entry>
    requires ParseAddr(b, []).Some?
  {
    var r := ParseHeader(b).value.1;
    Accepted(r[SIZE_SIZE..SIZE_SIZE + FromNative16(r[..2])], [])
  }

  /** For any bytes that parse as an address: skipping the size of the parsed address lands where the
      length field says it ends exactly when no option key is repeated, and short of it otherwise. */
  lemma SkipLands(b: Buffer)
    requires ParseAddr(b, []).Some?
    ensures var (a, rest) := ParseAddr(b, []).value;
      && a.Valid() && a.Size() + |rest| <= |b|
      && (a.Size() + |rest| == |b| <==> DistinctKeys(AcceptedOptions(b)))
  {
    var r := ParseHeader(b).value.1;
    var size := FromNative16(r[..2]);
    var m := r[..SIZE_SIZE + size];
    assert m[..2] == r[..2] && m[2..] == r[2..2 + size];
    DeserializeKeepsValid(m, []);
    assert forall e :: e in Accepted(m[2..], []) ==> Lookup([], e.key).None?;
    if size != 0 {
      LoadedSize(m[2..], []);
    }
  }

  // ---------------------------------------------------------------- bytes that are written again as they are

  lemma HeaderBytes(b: Buffer)
    requires ParseHeader(b).Some?
    ensures var (a, r) := ParseHeader(b).value;
      |a.transport| < 0x100 && b == EncodeHeader(a.cost, a.expiration, a.transport) + r
  {
    var t: nat := b[9];
    NativeBytes64(b[1..9]);
    assert b == [b[0]] + b[1..9] + [b[9]] + b[HEADER..HEADER + t] + b[HEADER + t..];
  }

  /** The option entries are as a mapping's serialization writes them. */
  ghost predicate AddrInOrder(b: Buffer)
    requires ParseAddr(b, []).Some?
  {
    var r := ParseHeader(b).value.1;
    InOrder(r[SIZE_SIZE..SIZE_SIZE + FromNative16(r[..2])], [])
  }

  lemma SameRest(a: Buffer, b: Buffer, rest: Buffer)
    ensures a + rest == b + rest <==> a == b
  {
    if a + rest == b + rest {
      assert |a| == |b| && a == (a + rest)[..|a|] && b == (b + rest)[..|a|];
    }
  }

  lemma OptionsOriginal(r: Buffer)
    requires ParseOptions(r, []).Some?
    ensures var (kv, rest) := ParseOptions(r, []).value;
      && ValidEntries(kv)
      && (r == Encode(kv) + rest <==> InOrder(r[SIZE_SIZE..SIZE_SIZE + FromNative16(r[..2])], []))
  {
    var (kv, rest) := ParseOptions(r, []).value;
    var n := SIZE_SIZE + FromNative16(r[..2]);
    var m := r[..n];
    assert r == m + rest && m[..2] == r[..2] && m[2..] == r[2..n];
    if n == SIZE_SIZE {
      assert m == Encode([]);
    } else {
      OriginalBytes(m, []);
      SameRest(m, Encode(kv), rest);
    }
  }

  lemma SameFront(a: Buffer, b: Buffer, c: Buffer)
    ensures a + b == a + c <==> b == c
  {
    if a + b == a + c {
      assert b == (a + b)[|a|..] && c == (a + c)[|a|..];
    }
  }

  /** An address is written again as it was read exactly when its option entries are in order. */
  lemma AddrOriginal(b: Buffer)
    requires ParseAddr(b, []).Some?
    ensures var (a, rest) := ParseAddr(b, []).value;
      a.Valid() && (b == EncodeAddr(a) + rest <==> AddrInOrder(b))
  {
    var (h, r) := ParseHeader(b).value;
    var (a, rest) := ParseAddr(b, []).value;
    HeaderBytes(b);
    OptionsOriginal(r);
    Assoc(EncodeHeader(a.cost, a.expiration, a.transport), Encode(a.options), rest);
    SameFront(EncodeHeader(a.cost, a.expiration, a.transport), r, Encode(a.options) + rest);
  }

  // ---------------------------------------------------------------- an address that is skipped short

  const REPEATED_ENTRY: Entry := Entry(['a' as int], ['b' as int])

  /** An address with the same option twice. */
  ghost function RepeatedKey(): Buffer {
    var e := EncodeEntry(REPEATED_ENTRY);
    EncodeHeader(8, 0, NTCP2) + (Native16(12) + (e + e))
  }

  /** A mapping's length and bytes off the front. */
  lemma MappingInFront(m: Buffer, rest: Buffer, old_: seq<Entry>)
    requires MIN_SIZE <= |m| < 0x1_0000
    ensures var p := LoadAll(m, []);
      ParseOptions(Native16(|m|) + m + rest, old_) == if p.ok then Some((p.kv, rest)) else None
  {
    var (r, b) := (Native16(|m|) + m + rest, Native16(|m|) + m);
    assert r[..2] == Native16(|m|) == b[..2] && r[..2 + |m|] == b && r[2 + |m|..] == rest && b[2..] == m;
  }

  lemma TwiceLoaded(e: Entry)
    requires e.Valid() && e.Size() == 6
    ensures LoadAll(EncodeEntry(e) + EncodeEntry(e), []) == Outcome(true, [e])
  {
    var b := EncodeEntry(e);
    assert b + [] == b && Insert([], e) == [e] && [e][1..] == [];
    LessTotal(e.key, e.key);
    PairBack(e, b);
    PairBack(e, []);
    assert Total([e]) == 8 && Insert([e], e) == [e];
    assert AddSpec([], e) == AddSpec([e], e) == Outcome(true, [e]);
    assert LoadAll(b, [e]) == LoadAll([], [e]);
    assert LoadAll(b + b, []) == LoadAll(b, [e]);
  }

  /** It parses, whatever follows it, to an address whose size is six bytes short of its own. */
  lemma SkipFallsShort(rest: Buffer)
    ensures var a := Addr(8, 0, NTCP2, [REPEATED_ENTRY]);
      ParseAddr(RepeatedKey() + rest, []) == Some((a, rest)) && a.Size() + 6 == |RepeatedKey()|
  {
    var e := EncodeEntry(REPEATED_ENTRY);
    Assoc(EncodeHeader(8, 0, NTCP2), Native16(12) + (e + e), rest);
    HeaderBack(Addr(8, 0, NTCP2, []), Native16(12) + (e + e) + rest);
    TwiceLoaded(REPEATED_ENTRY);
    MappingInFront(e + e, rest, []);
    assert |e + e| == 12 && Total([REPEATED_ENTRY]) == 8;
  }
}
