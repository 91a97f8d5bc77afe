/** The formats again, by the places and the numbers of their bytes. */
module Formats {
  import opened Bytes
  import opened Mappings
  import opened Addresses
  import opened Identities
  import opened Infos
  import opened Blocks
  import opened BlockIO

  // ---------------------------------------------------------------- blocks

  function TypeNumber(b: Block): nat {
    match b
    case DateTime(_) => 0
    case Options(_, _, _, _, _, _, _, _) => 1
    case RouterInfo(_, _) => 2
    case I2NP(_, _, _, _) => 3
    case Termination(_, _, _) => 4
    case Padding(_) => 254
  }

  /** The 16-bit size of any block, acceptable or not; without a RouterInfo, that of the smallest. */
  lemma Sizes(b: Block)
    ensures b.Size() == match b
      case DateTime(_) => 7
      case Options(_, _, _, _, _, _, _, _) => 15
      case RouterInfo(_, info) => if info.None? then 444 else (4 + info.value.Size()) % 0x1_0000
      case I2NP(_, _, _, msg) => (12 + |msg|) % 0x1_0000
      case Termination(_, _, ad) => (12 + |ad|) % 0x1_0000
      case Padding(p) => (3 + |p|) % 0x1_0000
  {
  }

  /** A block: its type, the length of what follows, and that. */
  lemma BlockPlaces(b: Block, now: u32)
    requires Acceptable(b, now)
    ensures var e := EncodeBlock(b, now);
      e[0] as nat == TypeNumber(b) && BigEndian(e[1..3]) + 3 == |e| && e[3..] == EncodePayload(b, now)
  {
    var e := EncodeBlock(b, now);
    assert e[1..3] == BE16(b.PayloadLen());
    ByteOrder16(e[1..3]);
  }

  lemma MessagePlaces(b: Block, now: u32)
    requires Acceptable(b, now) && (b.I2NP? || b.Termination? || b.DateTime? || b.Padding?)
    ensures var p := EncodePayload(b, now);
      match b
      case I2NP(t, id, exp, msg) =>
        |p| >= 9 && p[0] == t && BigEndian(p[1..5]) == id as nat && BigEndian(p[5..9]) == exp as nat && p[9..] == msg
      case Termination(reason, frames, ad) =>
        |p| >= 9 && BigEndian(p[..8]) == frames as nat && p[8] == reason && p[9..] == ad
      case DateTime(t) => |p| == 4 && BigEndian(p) == t as nat
      case Padding(d) => p == d
      case _ => true
  {
    var p := EncodePayload(b, now);
    match b {
      case I2NP(_, id, exp, _) =>
        assert p[1..5] == BE32(id) && p[5..9] == BE32(exp);
        ByteOrder32(p[1..5]);
        ByteOrder32(p[5..9]);
      case Termination(_, frames, _) =>
        assert p[..8] == BE64(frames);
        ByteOrder64(p[..8]);
      case DateTime(_) => ByteOrder32(p);
      case Padding(_) =>
    }
  }

  lemma OptionsPlaces(b: Block, now: u32)
    requires Acceptable(b, now) && b.Options?
    ensures var p := EncodePayload(b, now);
      && |p| == 12 && Sixteenths(b.tmin, p[0]) && Sixteenths(b.tmax, p[1]) && Sixteenths(b.rmin, p[2])
      && Sixteenths(b.rmax, p[3]) && BigEndian(p[4..6]) == b.tdummy as nat && BigEndian(p[6..8]) == b.rdummy as nat
      && BigEndian(p[8..10]) == b.tdelay as nat && BigEndian(p[10..12]) == b.rdelay as nat
  {
    var p := EncodePayload(b, now);
    assert p[4..6] == BE16(b.tdummy) && p[6..8] == BE16(b.rdummy);
    assert p[8..10] == BE16(b.tdelay) && p[10..12] == BE16(b.rdelay);
    ByteOrder16(p[4..6]);
    ByteOrder16(p[6..8]);
    ByteOrder16(p[8..10]);
    ByteOrder16(p[10..12]);
  }

  /** A block of no size stays as it is constructed. */
  lemma EmptyBlock(t: byte, rest: Buffer, env: Env)
    requires env.Valid()
    ensures ParseBlock([t, 0, 0] + rest, env)
      == if t == 0 then Some((DateTime(env.now), rest))
         else if t == 1 then Some((Options(0.0, 0.0, 0.0, 0.0, 0, 0, 0, 0), rest))
         else if t == 2 then Some((RouterInfo(1, None), rest))
         else if t == 3 then Some((I2NP(20, env.msgId, (env.now + 120) % 0x1_0000_0000, []), rest))
         else if t == 4 then Some((Termination(0, 0, []), rest))
         else if t == 254 then Some((Padding([]), rest)) else None
  {
    var r := [t, 0, 0] + rest;
    assert r[1..3] == [0, 0] && r[3..] == rest;
  }

  /** Being written renews a block: padding is drawn again; a RouterInfo gets new padding in its identity, a new
      date and a signature over what it is then, which verifies. Nothing else changes. */
  lemma Renewal(b: Block, d: Draw, s: Scheme, now: u32)
    requires Usable(b) && DrawFor(b, d) && s.Correct() && Writable(b, now)
    ensures var r := Refreshed(b, d, s);
      if b.Padding? then r == Padding(d.random)
      else if !b.RouterInfo? then r == b
      else
        && r.RouterInfo? && r.flag == b.flag && r.info.Some?
        && var (v, w) := (b.info.value, r.info.value);
           && w == Info(v.identity.(padding := d.random), d.date, v.addresses, v.options, w.signature) && w.Valid()
           && s.verify(w.identity.signKind, w.identity.signKey, EncodeBody(w), w.signature)
  {
    if b.RouterInfo? {
      var w := Refreshed(b, d, s).info.value;
      assert EncodeBody(w.(signature := [])) == EncodeBody(w);
    }
  }

  // ---------------------------------------------------------------- certificates and identities

  /** Seven bytes read as a certificate: a null one, or a key certificate of the right length, that is reachable
      when it names kinds that are supported. Without a length the kinds stay as they were. */
  lemma CertRead(t: byte, n: u16, s: u16, k: u16, old_: Cert)
    ensures ParseCert([t] + Native16(n) + Native16(s) + Native16(k), old_)
      == if t != 0 && (t != 5 || n != 7) then None
         else if n == 0 then Some((Cert(t, 0, old_.signType, old_.cryptoType, true), 3))
         else Some((Cert(t, n, s, k,
                         old_.unreachable || !(k as nat in {4, 5} && s as nat in {7, 11, 12})), 7))
  {
    var b := [t] + Native16(n) + Native16(s) + Native16(k);
    assert b[1..3] == Native16(n) && b[3..5] == Native16(s) && b[5..7] == Native16(k);
  }

  lemma IdentPlaces(id: Ident)
    requires id.Valid()
    ensures var b := EncodeIdent(id);
      && |b| == 391 && b[..32] == id.cryptoKey && b[32..352] == id.padding && b[352..384] == id.signKey
      && b[384..] == [5, 7, 0, match id.signKind case EdDSA => 7 case RedDSA => 11 case XEdDSA => 12, 0,
                      match id.cryptoKind case EciesHmac => 4 case EciesBlake => 5, 0]
  {
    assert EncodeIdent(id)[384..] == EncodeCert(id.cert);
  }

  // ---------------------------------------------------------------- RouterInfo

  lemma Parts(i: Buffer, d: Buffer, n: byte, a: Buffer, o: Buffer, s: Buffer)
    requires |i| == 391 && |d| == 8
    ensures var (b, k) := (i + (d + ([n] + (a + [0])) + o) + s, 400 + |a|);
      && |b| == k + 1 + |o| + |s| && b[..391] == i && b[391..399] == d && b[399] == n && b[400..k] == a && b[k] == 0
      && b[k + 1..k + 1 + |o|] == o && b[k + 1 + |o|..] == s
  {
    var (m, k) := (d + ([n] + (a + [0])), 400 + |a|);
    var b := i + (m + o) + s;
    assert |m| == 10 + |a| && m[..8] == d && m[8] == n && m[9..9 + |a|] == a && m[9 + |a|] == 0;
    assert b[391..391 + |m|] == m;
    assert b[391..399] == m[..8] && b[400..k] == m[9..9 + |a|] && b[399] == m[8] && b[k] == m[9 + |a|];
  }

  /** A RouterInfo: the identity, the date in the program's own order, the number of addresses in one byte, the
      addresses, an empty peer list, the options, the signature. */
  lemma InfoPlaces(v: Info)
    requires v.Valid()
    ensures var (b, k) := (EncodeInfo(v), 400 + SizeSum(v.addresses));
      && |b| == k + 1 + Total(v.options) + |v.signature| && b[..391] == EncodeIdent(v.identity)
      && LittleEndian(b[391..399]) == v.date as nat && b[399] as nat == |v.addresses| % 256
      && b[400..k] == EncodeAddrs(v.addresses) && b[k] == 0
      && b[k + 1..k + 1 + Total(v.options)] == Encode(v.options) && b[k + 1 + Total(v.options)..] == v.signature
  {
    var d := Native64(v.date);
    Parts(EncodeIdent(v.identity), d, |v.addresses| % 256, EncodeAddrs(v.addresses), Encode(v.options), v.signature);
    ByteOrderNative(d);
  }

  /** The options reading insists on: a static key, and a version that begins with a 2. */
  lemma NeededOptions(kv: seq<Entry>)
    requires Sorted(kv)
    ensures OptionsOk(kv)
      <==> && (exists e :: e in kv && e.key == ['s' as int] && e.value != [])
           && (exists e :: e in kv && e.key == ['v' as int] && e.value != [] && e.value[0] == '2' as int)
  {
    forall e | e in kv && e.key in [KEY_S, KEY_V]
      ensures Lookup(kv, e.key) == Some(e.value)
    {
      LookupIsMember(kv, e.key, e.value);
    }
    if OptionsOk(kv) {
      var (s, v) := (Lookup(kv, KEY_S).value, Lookup(kv, KEY_V).value);
      LookupIsMember(kv, KEY_S, s);
      LookupIsMember(kv, KEY_V, v);
      assert Entry(KEY_S, s) in kv && Entry(KEY_V, v) in kv;
    }
  }
}
