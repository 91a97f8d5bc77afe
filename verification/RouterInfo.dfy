/** RouterInfo: a signed identity, date, list of self-delimiting addresses and options mapping. */
module Infos {
  import opened Bytes
  import opened Mappings
  import opened Addresses
  import opened Identities
  import Codecs

  const SIG_LEN: nat := 64
  const KEY_S: Buffer := ['s' as int]
  const KEY_I: Buffer := ['i' as int]
  const KEY_V: Buffer := ['v' as int]
  const VERSION: Buffer := ['2' as int]

  /** The signature implementations: a signing key signs, its public half verifies. */
  datatype Scheme = Scheme(sign: (SignKind, Buffer, Buffer) -> Buffer,
                           verify: (SignKind, Buffer, Buffer, Buffer) -> bool)
  {
    ghost predicate Correct() {
      forall k: SignKind, key: Buffer, msg: Buffer ::
        |sign(k, key, msg)| == SIG_LEN && verify(k, key, msg, sign(k, key, msg))
    }
  }

  // ---------------------------------------------------------------- the contents and their serialized form

  function SizeSum(l: seq<Addr>): nat {
    if l == [] then 0 else l[0].Size() + SizeSum(l[1..])
  }

  /** The addresses' options, all of them valid mappings. */
  ghost predicate AllOptions(l: seq<Addr>) {
    l == [] || (ValidEntries(l[0].options) && AllOptions(l[1..]))
  }

  predicate AllParamsOk(l: seq<Addr>) {
    l == [] || (l[0].ParamsOk() && AllParamsOk(l[1..]))
  }

  ghost predicate AllValid(l: seq<Addr>)
    ensures AllValid(l) == (AllOptions(l) && AllParamsOk(l))
  {
    l == [] || (l[0].Valid() && AllValid(l[1..]))
  }

  ghost function EncodeAddrs(l: seq<Addr>): (b: Buffer)
    requires AllValid(l)
    ensures |b| == SizeSum(l)
  {
    if l == [] then [] else EncodeAddr(l[0]) + EncodeAddrs(l[1..])
  }

  /** Date, number of addresses (one byte), addresses, zero peer size. */
  ghost function EncodeMiddle(date: u64, l: seq<Addr>): (b: Buffer)
    requires AllValid(l)
    ensures |b| == 10 + SizeSum(l)
  {
    Native64(date) + ([|l| % 0x100] + (EncodeAddrs(l) + [0]))
  }

  /** Everything that is signed. */
  ghost function EncodeBody(v: Info): (b: Buffer)
    requires v.Valid()
    ensures |b| + SIG_LEN == v.Size()
  {
    EncodeIdent(v.identity) + (EncodeMiddle(v.date, v.addresses) + Encode(v.options))
  }

  /** The contents of a RouterInfo. */
  datatype Info = Info(identity: Ident, date: u64, addresses: seq<Addr>, options: seq<Entry>, signature: Buffer)
  {
    ghost predicate Valid() {
      identity.Valid() && ValidEntries(options) && AllValid(addresses)
    }

    /** An object can hold it: valid but for addresses whose transport or cost is not supported. */
    ghost predicate Held() {
      identity.Valid() && ValidEntries(options) && AllOptions(addresses)
    }

    /** What writing it insists on: addresses it supports, and the one signing implementation there is. */
    predicate Signable() {
      AllParamsOk(addresses) && identity.signKind.EdDSA?
    }

    function Size(): nat {
      identity.Size() + 8 + 1 + SizeSum(addresses) + 1 + Total(options) + SIG_LEN
    }

    /** Signed by its own identity. */
    ghost predicate SignedBy(s: Scheme)
      requires Valid()
    {
      signature == s.sign(identity.signKind, identity.signKey, EncodeBody(this))
    }
  }

  ghost function EncodeInfo(v: Info): Buffer
    requires v.Valid()
  {
    EncodeBody(v) + v.signature
  }

  // ---------------------------------------------------------------- reading

  /** What an address is parsed from: all that is left of the buffer, put in front of the bytes a new address
      starts out with. Nothing left at all is an error. */
  ghost function FirstAddr(b: Buffer): Option<(Addr, Buffer)> {
    if b == [] then None else ParseAddr(b + EncodeAddr(BLANK), [])
  }

  /** n addresses: each is parsed from all that is left of the buffer, then skipped by its own size. */
  ghost function ProcessAddrs(b: Buffer, n: nat): (p: Option<(seq<Addr>, Buffer)>)
    ensures p.Some? ==> |p.value.0| == n
  {
    if n == 0 then Some(([], b)) else
    match FirstAddr(b)
    case None => None
    case Some((a, _)) =>
      if |b| < a.Size() then None else
      match ProcessAddrs(b[a.Size()..], n - 1)
      case None => None
      case Some((l, rest)) => Some(([a] + l, rest))
  }

  ghost predicate OptionsOk(kv: seq<Entry>) {
    && Lookup(kv, KEY_S).Some? && Lookup(kv, KEY_S).value != []
    && Lookup(kv, KEY_V).Some? && VERSION <= Lookup(kv, KEY_V).value
  }

  /** An empty options mapping leaves the old entries in place, unchecked. */
  ghost function ProcessOptions(b: Buffer, old_: seq<Entry>): Option<(seq<Entry>, Buffer)> {
    if |b| < SIZE_SIZE then None
    else if FromNative16(b[..2]) == 0 then Some((old_, b[2..]))
    else match ParseOptions(b, old_)
      case None => None
      case Some((kv, rest)) => if OptionsOk(kv) then Some((kv, rest)) else None
  }

  /** The identity part, and the options once the identity's public key was added to them. */
  ghost function ProcessIdentity(b: Buffer, old_: Info, n: nat): Option<(Ident, seq<Entry>)>
    requires |old_.identity.cryptoKey| == KEY_LEN
  {
    if |b| < IDENT_SIZE then None else
    var r := ParseIdent(b[..IDENT_SIZE], old_.identity.cert, n);
    if r.Throws? then None else
    var id := if r.Reachable? then r.id else old_.identity.(cert := r.cert);
    var added := AddSpec(old_.options, Entry(KEY_S, Codecs.Text(Codecs.Base64, id.cryptoKey).value));
    if added.ok then Some((id, added.kv)) else None
  }

  /** Date, addresses and the skipped peer size. */
  ghost function ParseMiddle(r: Buffer): Option<(u64, seq<Addr>, Buffer)> {
    if |r| < 9 then None else
    match ProcessAddrs(r[9..], r[8])
    case None => None
    case Some((l, r')) => if |r'| < 1 then None else Some((FromNative64(r[..8]), l, r'[1..]))
  }

  /** Options and signature. */
  ghost function ParseTail(r: Buffer, kv0: seq<Entry>): Option<(seq<Entry>, Buffer, Buffer)> {
    match ProcessOptions(r, kv0)
    case None => None
    case Some((kv, r')) => if |r'| < SIG_LEN then None else Some((kv, r'[..SIG_LEN], r'[SIG_LEN..]))
  }

  /** Everything after the identity. */
  ghost function ParseBody(r: Buffer, id: Ident, kv0: seq<Entry>): Option<(Info, Buffer)> {
    match ParseMiddle(r)
    case None => None
    case Some((date, l, r')) =>
      match ParseTail(r', kv0)
      case None => None
      case Some((kv, sig, rest)) => Some((Info(id, date, l, kv, sig), rest))
  }

  /** Reading over a RouterInfo whose certificate buffer has n bytes. */
  ghost function ParseInfo(b: Buffer, old_: Info, n: nat): Option<(Info, Buffer)>
    requires |old_.identity.cryptoKey| == KEY_LEN
  {
    match ProcessIdentity(b, old_, n)
    case None => None
    case Some((id, kv0)) => ParseBody(b[IDENT_SIZE..], id, kv0)
  }

  // ---------------------------------------------------------------- round trip

  lemma FirstEncoded(l: seq<Addr>, rest: Buffer)
    requires l != [] && AllValid(l)
    ensures EncodeAddrs(l) + rest == EncodeAddr(l[0]) + (EncodeAddrs(l[1..]) + rest)
  {
    Assoc(EncodeAddr(l[0]), EncodeAddrs(l[1..]), rest);
  }

  lemma AddrInFront(a: Addr, r: Buffer, t: seq<Addr>, rest: Buffer)
    requires a.Valid() && ProcessAddrs(r, |t|) == Some((t, rest))
    ensures ProcessAddrs(EncodeAddr(a) + r, |t| + 1) == Some(([a] + t, rest))
  {
    var b := EncodeAddr(a) + r;
    Assoc(EncodeAddr(a), r, EncodeAddr(BLANK));
    SelfDelimiting(a, [], r + EncodeAddr(BLANK));
    assert b[a.Size()..] == r;
  }

  /** A list of addresses reads back, whatever follows it: each skip lands on the next address. */
  lemma {:induction false} AddrsBack(l: seq<Addr>, rest: Buffer)
    requires AllValid(l)
    ensures ProcessAddrs(EncodeAddrs(l) + rest, |l|) == Some((l, rest))
  {
    if l == [] {
      assert EncodeAddrs(l) + rest == rest;
    } else {
      AddrsBack(l[1..], rest);
      FirstEncoded(l, rest);
      AddrInFront(l[0], EncodeAddrs(l[1..]) + rest, l[1..], rest);
      assert [l[0]] + l[1..] == l;
    }
  }

  /** As many addresses are read as the count says. */
  lemma MiddleCount(r: Buffer)
    requires |r| >= 9
    ensures ParseMiddle(r).Some? ==> |ParseMiddle(r).value.1| == r[8] as nat
  {
  }

  lemma MiddleCounted(r: Buffer, date: u64, l: seq<Addr>, tail: Buffer)
    requires AllValid(l)
    requires |r| >= 9 && r[..8] == Native64(date) && r[8] as nat == |l| && r[9..] == EncodeAddrs(l) + ([0] + tail)
    ensures ParseMiddle(r) == Some((date, l, tail))
  {
    AddrsBack(l, [0] + tail);
    assert ([0] + tail)[1..] == tail;
  }

  lemma MiddleFrom(r: Buffer, date: u64, l: seq<Addr>, tail: Buffer)
    requires AllValid(l)
    requires |r| >= 9 && r[..8] == Native64(date) && r[9..] == EncodeAddrs(l) + ([0] + tail)
    ensures var p := ParseMiddle(r);
      if r[8] as nat == |l| then p == Some((date, l, tail)) else p.Some? ==> p.value.1 != l
  {
    if r[8] as nat == |l| {
      MiddleCounted(r, date, l, tail);
    } else {
      MiddleCount(r);
    }
  }

  lemma CountByte(n: nat)
    ensures n % 0x100 == n <==> n < 0x100
  {
  }

  lemma MiddleLayout(d: Buffer, n: byte, a: Buffer, tail: Buffer)
    requires |d| == 8
    ensures var r := d + ([n] + (a + [0])) + tail;
      r[..8] == d && r[8] == n && r[9..] == a + ([0] + tail)
  {
  }

  lemma MiddleBack(date: u64, l: seq<Addr>, tail: Buffer)
    requires AllValid(l)
    ensures var p := ParseMiddle(EncodeMiddle(date, l) + tail);
      if |l| < 0x100 then p == Some((date, l, tail)) else p.Some? ==> p.value.1 != l
  {
    var r := EncodeMiddle(date, l) + tail;
    assert |r| >= 9 && r[..8] == Native64(date) && r[8] as nat == |l| % 0x100
           && r[9..] == EncodeAddrs(l) + ([0] + tail) by {
      MiddleLayout(Native64(date), |l| % 0x100, EncodeAddrs(l), tail);
    }
    CountByte(|l|);
    MiddleFrom(r, date, l, tail);
  }

  lemma TailBack(kv: seq<Entry>, kv0: seq<Entry>, sig: Buffer, rest: Buffer)
    requires ValidEntries(kv) && |sig| == SIG_LEN
    ensures ParseTail(Encode(kv) + (sig + rest), kv0) ==
      if kv == [] then Some((kv0, sig, rest)) else if OptionsOk(kv) then Some((kv, sig, rest)) else None
  {
    var r := Encode(kv) + (sig + rest);
    assert r[..2] == Native16(Total(kv) - SIZE_SIZE);
    OptionsBack(kv, kv0, sig + rest);
    assert (sig + rest)[..SIG_LEN] == sig && (sig + rest)[SIG_LEN..] == rest;
    if kv == [] {
      assert r[2..] == sig + rest;
    } else {
      assert Total(kv) > SIZE_SIZE;
    }
  }

  /** The public key's text always fits a mapping entry, and a new object's mapping. */
  lemma FortyFour(n: nat)
    requires n % 4 == 0 && 43 <= n < 47
    ensures n == 44
  {
  }

  lemma KeyText(key: Buffer)
    requires |key| == KEY_LEN
    ensures Codecs.Text(Codecs.Base64, key).Some? && |Codecs.Text(Codecs.Base64, key).value| == 44
    ensures AddSpec([], Entry(KEY_S, Codecs.Text(Codecs.Base64, key).value)).ok
  {
    Codecs.TextLength(Codecs.Base64, key);
    FortyFour(|Codecs.Text(Codecs.Base64, key).value|);
  }

  ghost function KeyOption(key: Buffer): seq<Entry>
    requires key != []
  {
    [Entry(KEY_S, Codecs.Text(Codecs.Base64, key).value)]
  }

  lemma IdentityBack(v: Info, old_: Info, tail: Buffer)
    requires v.Valid() && |old_.identity.cryptoKey| == KEY_LEN && !old_.identity.cert.unreachable && old_.options == []
    ensures ProcessIdentity(EncodeIdent(v.identity) + tail, old_, KEY_CERT_SIZE)
      == Some((v.identity, KeyOption(v.identity.cryptoKey)))
  {
    var e := EncodeIdent(v.identity);
    assert (e + tail)[..IDENT_SIZE] == e + [];
    IdentBack(v.identity, old_.identity.cert, []);
    KeyText(v.identity.cryptoKey);
  }

  lemma InfoLayout(v: Info, rest: Buffer)
    requires v.Valid()
    ensures EncodeInfo(v) + rest
      == EncodeIdent(v.identity) + (EncodeMiddle(v.date, v.addresses) + (Encode(v.options) + (v.signature + rest)))
  {
    var (i, m, o) := (EncodeIdent(v.identity), EncodeMiddle(v.date, v.addresses), Encode(v.options));
    Assoc(i, m + o, v.signature);
    Assoc(i, m + o + v.signature, rest);
    Assoc(m, o, v.signature);
    Assoc(m, o + v.signature, rest);
    Assoc(o, v.signature, rest);
  }

  /** What a new object reads from a written RouterInfo, followed by anything. */
  lemma InfoBack(v: Info, old_: Info, rest: Buffer)
    requires v.Valid() && |v.signature| == SIG_LEN
    requires |old_.identity.cryptoKey| == KEY_LEN && !old_.identity.cert.unreachable && old_.options == []
    ensures var p := ParseInfo(EncodeInfo(v) + rest, old_, KEY_CERT_SIZE);
      if |v.addresses| >= 0x100 then p.Some? ==> p.value.0.addresses != v.addresses
      else if v.options == [] then p == Some((v.(options := KeyOption(v.identity.cryptoKey)), rest))
      else if OptionsOk(v.options) then p == Some((v, rest)) else p == None
  {
    var tail := Encode(v.options) + (v.signature + rest);
    var mid := EncodeMiddle(v.date, v.addresses) + tail;
    var b := EncodeInfo(v) + rest;
    InfoLayout(v, rest);
    IdentityBack(v, old_, mid);
    assert b[IDENT_SIZE..] == mid;
    MiddleBack(v.date, v.addresses, tail);
    TailBack(v.options, KeyOption(v.identity.cryptoKey), v.signature, rest);
  }

  /** A written RouterInfo is recovered, to its last byte, exactly when it has at most 255 addresses and its
      options hold a non-empty "s" and a "v" that starts with '2'. */
  lemma RoundTrip(v: Info, old_: Info)
    requires v.Valid() && |v.signature| == SIG_LEN
    requires |old_.identity.cryptoKey| == KEY_LEN && !old_.identity.cert.unreachable && old_.options == []
    ensures ParseInfo(EncodeInfo(v), old_, KEY_CERT_SIZE) == Some((v, []))
      <==> |v.addresses| <= 255 && OptionsOk(v.options)
  {
    InfoBack(v, old_, []);
    assert EncodeInfo(v) + [] == EncodeInfo(v);
  }

  /** What verification sees after reading a written RouterInfo is what was signed. */
  lemma Verifies(v: Info, old_: Info, s: Scheme)
    requires s.Correct() && v.Valid() && v.SignedBy(s) && |v.addresses| <= 255 && OptionsOk(v.options)
    requires |old_.identity.cryptoKey| == KEY_LEN && !old_.identity.cert.unreachable && old_.options == []
    ensures var b := EncodeInfo(v);
      var p := ParseInfo(b, old_, KEY_CERT_SIZE);
      p.Some? && |b| >= SIG_LEN && var r := p.value.0;
      s.verify(r.identity.signKind, r.identity.signKey, b[..|b| - SIG_LEN], r.signature)
  {
    RoundTrip(v, old_);
    var b := EncodeInfo(v);
    assert b[..|b| - SIG_LEN] == EncodeBody(v);
  }

  // ---------------------------------------------------------------- sizes

  function Copies(a: Addr, n: nat): (l: seq<Addr>)
    ensures |l| == n && SizeSum(l) == n * a.Size()
  {
    if n == 0 then [] else [a] + Copies(a, n - 1)
  }

  lemma {:induction false} CopiesValid(a: Addr, n: nat)
    requires a.Valid()
    ensures AllValid(Copies(a, n))
  {
    if n > 0 {
      CopiesValid(a, n - 1);
    }
  }

  const FILLER: Addr := Addr(8, 0, NTCP2, [Entry([0], Zeros(255))])

  /** As many addresses of 277 bytes as fit, and options for the rest. */
  function OfSize(size: nat, id: Ident): Info
    requires size >= 479
  {
    var (n, rest) := ((size - 479) / 277, (size - 479) % 277);
    var s := if rest <= 254 then rest else 254;
    var options := [Entry(KEY_S, Zeros(1 + s)), Entry(KEY_V, VERSION + Zeros(rest - s))];
    Info(id, 0, Copies(FILLER, n), options, Zeros(SIG_LEN))
  }

  lemma TwoOptions(s: Buffer, v: Buffer)
    requires 1 <= |s| <= MAX_KV && 1 <= |v| <= MAX_KV && v[0] == VERSION[0]
    ensures var kv := [Entry(KEY_S, s), Entry(KEY_V, v)];
      ValidEntries(kv) && OptionsOk(kv) && Total(kv) == 12 + |s| + |v|
  {
    var kv := [Entry(KEY_S, s), Entry(KEY_V, v)];
    assert kv[1..] == [Entry(KEY_V, v)] && kv[1..][1..] == [];
    assert KEY_S[0] < KEY_V[0] && Less(KEY_S, KEY_V);
    assert Lookup(kv[1..], KEY_V) == Some(v) == Lookup(kv, KEY_V);
    assert Total(kv[1..]) == 7 + |v| && kv[0].Valid() && kv[1].Valid();
  }

  /** There are valid RouterInfos that can be read back of every size from 479 bytes up to a block's limit. */
  lemma EverySize(size: nat, id: Ident)
    requires 479 <= size <= 65516 && id.Valid()
    ensures var v := OfSize(size, id);
      && v.Valid() && v.Size() == size && |v.signature| == SIG_LEN
      && |v.addresses| <= 255 && OptionsOk(v.options)
  {
    var v := OfSize(size, id);
    assert FILLER.Size() == 277 && FILLER.Valid();
    CopiesValid(FILLER, (size - 479) / 277);
    TwoOptions(v.options[0].value, v.options[1].value);
  }

  // ---------------------------------------------------------------- the options of a new RouterInfo

  /** A new RouterInfo adds its public key, IV and version to the options it is given. */
  ghost function NewOptions(kv: seq<Entry>, key: Buffer, iv: Buffer): Outcome
    requires |key| == KEY_LEN && iv != []
  {
    var s := AddSpec(kv, Entry(KEY_S, Codecs.Text(Codecs.Base64, key).value));
    if !s.ok then s else
    var i := AddSpec(s.kv, Entry(KEY_I, Codecs.Text(Codecs.Base64, iv).value));
    if !i.ok then i else AddSpec(i.kv, Entry(KEY_V, VERSION))
  }

  ghost function FirstWins(kv: seq<Entry>, e: Entry, key: Buffer): Option<Buffer> {
    if Lookup(kv, key).Some? then Lookup(kv, key) else if key == e.key then Some(e.value) else None
  }

  function Else(a: Option<Buffer>, b: Option<Buffer>): Option<Buffer> {
    if a.Some? then a else b
  }

  lemma AddedLookup(kv: seq<Entry>, e: Entry)
    requires Sorted(kv)
    ensures forall key :: Lookup(Insert(kv, e), key) == FirstWins(kv, e, key)
  {
    forall key
      ensures Lookup(Insert(kv, e), key) == FirstWins(kv, e, key)
    {
      InsertLookup(kv, e, key);
    }
  }

  lemma {:induction false} ValuesNonEmpty(kv: seq<Entry>, key: Buffer)
    requires forall i :: 0 <= i < |kv| ==> kv[i].Valid()
    ensures Lookup(kv, key).Some? ==> Lookup(kv, key).value != []
  {
    if kv != [] {
      ValuesNonEmpty(kv[1..], key);
    }
  }

  /** The result can be read back unless the given options already claim another version: the first value
      added for a key stays. */
  lemma NewOptionsOk(kv: seq<Entry>, key: Buffer, iv: Buffer)
    requires ValidEntries(kv) && |key| == KEY_LEN && iv != [] && NewOptions(kv, key, iv).ok
    ensures var r := NewOptions(kv, key, iv).kv;
      && ValidEntries(r) && r != []
      && (OptionsOk(r) <==> (Lookup(kv, KEY_V).Some? ==> VERSION <= Lookup(kv, KEY_V).value))
    ensures var r := NewOptions(kv, key, iv).kv;
      && Lookup(r, ['s' as int]) == Else(Lookup(kv, ['s' as int]), Codecs.Text(Codecs.Base64, key))
      && Lookup(r, ['i' as int]) == Else(Lookup(kv, ['i' as int]), Codecs.Text(Codecs.Base64, iv))
      && Lookup(r, ['v' as int]) == Else(Lookup(kv, ['v' as int]), Some(['2' as int]))
  {
    var es := Entry(KEY_S, Codecs.Text(Codecs.Base64, key).value);
    var ei := Entry(KEY_I, Codecs.Text(Codecs.Base64, iv).value);
    var ev := Entry(KEY_V, VERSION);
    var (s, i) := (Insert(kv, es), Insert(Insert(kv, es), ei));
    var r := Insert(i, ev);
    AddKeepsValid(kv, es);
    AddKeepsValid(s, ei);
    AddKeepsValid(i, ev);
    AddedLookup(kv, es);
    AddedLookup(s, ei);
    AddedLookup(i, ev);
    ValuesNonEmpty(r, KEY_S);
  }

  // ---------------------------------------------------------------- the class

  lemma LastCut(body: Buffer, tail: Buffer)
    ensures (body + tail)[..|body + tail| - |tail|] == body
  {
  }

  method WriteAddress(writer: Writer, a: Addr) returns (ok: bool)
    requires ValidEntries(a.options) && writer.Valid() && writer.pos + a.Size() <= |writer.buf|
    modifies writer
    ensures writer.Valid() && |writer.buf| == |old(writer.buf)| && ok == a.ParamsOk()
    ensures ok ==> writer.Done() == old(writer.Done()) + EncodeAddr(a)
  {
    var address := new Address.FromContents(a);
    ok := address.Serialize();
    if ok {
      ok := writer.WriteData(address.buffer);
    }
  }

  lemma {:induction false} AddrsNext(l: seq<Addr>, a: Addr)
    requires AllValid(l) && a.Valid()
    ensures AllValid(l + [a]) && EncodeAddrs(l + [a]) == EncodeAddrs(l) + EncodeAddr(a)
  {
    if l == [] {
      assert [a][1..] == [];
    } else {
      AddrsNext(l[1..], a);
      assert (l + [a])[1..] == l[1..] + [a];
      Assoc(EncodeAddr(l[0]), EncodeAddrs(l[1..]), EncodeAddr(a));
    }
  }

  lemma TakeNext(l: seq<Addr>, i: nat)
    requires i < |l|
    ensures l[..i + 1] == l[..i] + [l[i]]
  {
  }

  lemma AddrsWritten(w: Buffer, l: seq<Addr>, i: nat)
    requires i < |l| && AllValid(l[..i]) && l[i].Valid()
    ensures AllValid(l[..i + 1])
    ensures w + EncodeAddrs(l[..i]) + EncodeAddr(l[i]) == w + EncodeAddrs(l[..i + 1])
  {
    TakeNext(l, i);
    AddrsNext(l[..i], l[i]);
    Assoc(w, EncodeAddrs(l[..i]), EncodeAddr(l[i]));
  }

  lemma SizeNext(l: seq<Addr>, i: nat)
    requires i < |l|
    ensures SizeSum(l[i..]) == l[i].Size() + SizeSum(l[i + 1..])
    ensures AllOptions(l[i..]) == (ValidEntries(l[i].options) && AllOptions(l[i + 1..]))
    ensures AllParamsOk(l[i..]) == (l[i].ParamsOk() && AllParamsOk(l[i + 1..]))
  {
    assert l[i..][1..] == l[i + 1..];
  }

  /** Serializes and writes the addresses in turn; an unacceptable one throws. */
  method WriteAddresses(writer: Writer, l: seq<Addr>) returns (ok: bool)
    requires AllOptions(l)
    requires writer.Valid() && writer.pos + SizeSum(l) <= |writer.buf|
    modifies writer
    ensures writer.Valid() && |writer.buf| == |old(writer.buf)|
    ensures ok <==> AllParamsOk(l)
    ensures ok ==> writer.Done() == old(writer.Done()) + EncodeAddrs(l)
  {
    ok := true;
    assert l[0..] == l;
    for i := 0 to |l|
      invariant ok && writer.Valid() && |writer.buf| == |old(writer.buf)|
      invariant AllOptions(l[i..]) && AllParamsOk(l) == AllParamsOk(l[i..]) && AllValid(l[..i])
      invariant writer.Done() == old(writer.Done()) + EncodeAddrs(l[..i])
      invariant writer.pos + SizeSum(l[i..]) <= |writer.buf|
    {
      SizeNext(l, i);
      ok := WriteAddress(writer, l[i]);
      if !ok {
        return;
      }
      AddrsWritten(old(writer.Done()), l, i);
    }
    assert l[..|l|] == l;
  }

  lemma MiddleParts(w: Buffer, d: Buffer, n: Buffer, a: Buffer)
    ensures w + d + n + a + [0] == w + (d + (n + (a + [0])))
  {
  }

  method WriteMiddle(writer: Writer, date: u64, l: seq<Addr>) returns (ok: bool)
    requires AllOptions(l)
    requires writer.Valid() && writer.pos + 10 + SizeSum(l) <= |writer.buf|
    modifies writer
    ensures writer.Valid() && |writer.buf| == |old(writer.buf)|
    ensures ok <==> AllParamsOk(l)
    ensures ok ==> writer.Done() == old(writer.Done()) + EncodeMiddle(date, l)
  {
    ok := writer.WriteData(Native64(date));
    ok := writer.WriteData([|l| % 0x100]);
    ghost var done := writer.Done();
    ok := WriteAddresses(writer, l);
    if ok {
      ok := writer.WriteData([0]);
      MiddleParts(old(writer.Done()), Native64(date), [|l| % 0x100], EncodeAddrs(l));
    }
  }

  ghost function Prepended(l: seq<Addr>, p: Option<(seq<Addr>, Buffer)>): Option<(seq<Addr>, Buffer)> {
    if p.None? then None else Some((l + p.value.0, p.value.1))
  }

  /** One address is parsed from a copy of everything that is left, put in front of what the new address's
      buffer holds already, then skipped. */
  method ReadAddress(reader: Reader) returns (ok: bool, a: Addr)
    requires reader.Valid()
    modifies reader
    ensures reader.Valid() && (ok ==> ValidEntries(a.options))
    ensures var p := FirstAddr(old(reader.Rest()));
      && ok == (p.Some? && p.value.0.Size() <= |old(reader.Rest())|)
      && (ok ==> a == p.value.0 && reader.Rest() == old(reader.Rest())[a.Size()..])
  {
    var address := new Address();
    a := address.Contents();
    if reader.GCount() == 0 {
      return false, a;
    }
    address.buffer := reader.buf[reader.Count()..] + address.buffer;
    ok := address.Deserialize();
    if ok {
      a := address.Contents();
      var size := address.Size();
      ok := reader.SkipBytes(size);
    }
  }

  lemma {:induction false} OptionsNext(l: seq<Addr>, a: Addr)
    requires AllOptions(l) && ValidEntries(a.options)
    ensures AllOptions(l + [a])
  {
    if l == [] {
      assert [a][1..] == [];
    } else {
      OptionsNext(l[1..], a);
      assert (l + [a])[1..] == l[1..] + [a];
    }
  }

  lemma PrependedTwice(l: seq<Addr>, a: Addr, p: Option<(seq<Addr>, Buffer)>)
    ensures Prepended(l, Prepended([a], p)) == Prepended(l + [a], p)
  {
    if p.Some? {
      assert l + ([a] + p.value.0) == l + [a] + p.value.0;
    }
  }

  lemma ProcessStep(b: Buffer, n: nat, l: seq<Addr>)
    requires n > 0
    ensures var p := FirstAddr(b);
      Prepended(l, ProcessAddrs(b, n)) ==
        if p.Some? && p.value.0.Size() <= |b|
        then Prepended(l + [p.value.0], ProcessAddrs(b[p.value.0.Size()..], n - 1))
        else None
  {
    var p := FirstAddr(b);
    if p.Some? && p.value.0.Size() <= |b| {
      PrependedTwice(l, p.value.0, ProcessAddrs(b[p.value.0.Size()..], n - 1));
    }
  }

  /** The next of n addresses still to come. */
  method ReadNextAddress(reader: Reader, ghost n: nat, l: seq<Addr>) returns (ok: bool, l': seq<Addr>)
    requires reader.Valid() && n > 0 && AllOptions(l)
    modifies reader
    ensures reader.Valid() && (ok ==> AllOptions(l'))
    ensures Prepended(l, ProcessAddrs(old(reader.Rest()), n))
      == if ok then Prepended(l', ProcessAddrs(reader.Rest(), n - 1)) else None
  {
    var a;
    ProcessStep(reader.Rest(), n, l);
    ok, a := ReadAddress(reader);
    l' := l + [a];
    if ok {
      OptionsNext(l, a);
    }
  }

  lemma PrependedNone(p: Option<(seq<Addr>, Buffer)>)
    ensures Prepended([], p) == p
    ensures p.Some? ==> Prepended(p.value.0, Some(([], p.value.1))) == p
  {
    if p.Some? {
      assert [] + p.value.0 == p.value.0 == p.value.0 + [];
    }
  }

  method ReadAddresses(reader: Reader, n: byte) returns (ok: bool, l: seq<Addr>)
    requires reader.Valid()
    modifies reader
    ensures reader.Valid() && (ok ==> AllOptions(l))
    ensures ProcessAddrs(old(reader.Rest()), n) == if ok then Some((l, reader.Rest())) else None
  {
    l, ok := [], true;
    ghost var target := ProcessAddrs(reader.Rest(), n);
    PrependedNone(target);
    for i := 0 to n
      invariant ok && reader.Valid() && AllOptions(l)
      invariant target == Prepended(l, ProcessAddrs(reader.Rest(), n as nat - i))
    {
      ok, l := ReadNextAddress(reader, n as nat - i, l);
      if !ok {
        return;
      }
    }
    PrependedNone(Some((l, reader.Rest())));
  }

  /** Date, addresses, and the unused peer size. */
  method ReadMiddle(reader: Reader) returns (ok: bool, date: u64, l: seq<Addr>)
    requires reader.Valid()
    modifies reader
    ensures reader.Valid() && (ok ==> AllOptions(l))
    ensures ParseMiddle(old(reader.Rest())) == if ok then Some((date, l, reader.Rest())) else None
  {
    ghost var r := reader.Rest();
    var d, n;
    date, l := 0, [];
    ok, d := reader.ReadData(8);
    if !ok { return; }
    date := FromNative64(d);
    ok, n := reader.ReadByte();
    if !ok { return; }
    assert reader.Rest() == r[9..] && n == r[8];
    ok, l := ReadAddresses(reader, n);
    if !ok { return; }
    ok := reader.SkipBytes(1);
  }

  /** Signing what is written. */
  lemma Signed(v: Info, signature: Buffer, s: Scheme)
    requires v.Valid() && signature == s.sign(v.identity.signKind, v.identity.signKey, EncodeBody(v))
    ensures var w := v.(signature := signature);
      w.Valid() && w.SignedBy(s) && EncodeInfo(w) == EncodeBody(v) + signature
  {
  }

  lemma WholeBuffer(buf: Buffer, done: Buffer)
    requires |done| == |buf| && done == buf[..|done|]
    ensures done == buf
  {
  }

  class RouterInfo {
    const identity: Identity
    const options: Mapping
    const scheme: Scheme
    var date: u64
    var addresses: seq<Addr>
    var signature: Buffer
    /** The signing implementation whose signature type the signature has. */
    var signatureKind: SignKind
    var buf: Buffer

    ghost predicate Valid()
      reads this, identity, identity.cert, options
    {
      && scheme.Correct() && identity.Valid() && options.Valid() && |identity.buf| == IDENT_SIZE
      && AllOptions(addresses)
    }

    function Contents(): Info
      reads this, identity, identity.cert, options
    {
      Info(identity.Contents(), date, addresses, options.kv, signature)
    }

    /** An object about to read a RouterInfo, or to be filled in. */
    constructor (identity: Identity, scheme: Scheme)
      requires scheme.Correct() && identity.Valid() && |identity.buf| == IDENT_SIZE
      ensures Valid() && fresh(options) && this.identity == identity && this.scheme == scheme
      ensures Contents() == Info(identity.Contents(), 0, [], [], []) && buf == []
    {
      this.identity, this.scheme := identity, scheme;
      options := new Mapping();
      date, addresses, signature, signatureKind, buf := 0, [], [], EdDSA, [];
    }

    /** An object with the given contents. */
    constructor FromContents(v: Info, sha: Buffer -> Buffer, scheme: Scheme)
      requires scheme.Correct() && v.Held()
      ensures Valid() && Usable() && this.scheme == scheme && Contents() == v
      ensures fresh(identity) && fresh(identity.cert) && fresh(options)
    {
      identity := new Identity(sha, v.identity.cryptoKind, v.identity.cryptoKey, v.identity.signKind,
                               v.identity.signKey, v.identity.padding);
      options := new Mapping.FromEntries(v.options);
      this.scheme, date, addresses, buf := scheme, v.date, v.addresses, [];
      signature, signatureKind := v.signature, v.identity.signKind;
    }

    method Size() returns (n: nat)
      requires Valid()
      ensures n == Contents().Size()
    {
      var addressSize := 0;
      for i := 0 to |addresses|
        invariant addressSize + SizeSum(addresses[i..]) == SizeSum(addresses)
      {
        assert addresses[i..][1..] == addresses[i + 1..];
        addressSize := addressSize + addresses[i].Size();
      }
      var o := options.Size();
      n := identity.Contents().Size() + 8 + 1 + addressSize + 1 + o + SIG_LEN;
    }

    /** The keys are there and the certificate names their kinds, as in every identity made by this program. */
    ghost predicate Usable()
      reads this, identity, identity.cert
    {
      && |identity.padding| == PADDING_LEN
      && identity.cert.fields == Cert(KEY_CERT, 7, identity.signKind.Type(), identity.cryptoKind.Type(), false)
    }

    /** Refreshes padding, date and signature. */
    method Serialize(now: u64, random: Buffer) returns (ok: bool)
      requires Valid() && Usable() && |random| == PADDING_LEN
      modifies this`date, this`signature, this`signatureKind, this`buf, identity, identity.cert, options`buffer
      ensures ok == old(Contents().Signable())
      ensures ok ==> Valid() && Usable() && Contents().Valid()
      ensures ok ==> Contents() == old(Contents()).(
        identity := old(identity.Contents()).(padding := random), date := now, signature := signature)
      ensures ok ==> Contents().SignedBy(scheme) && signatureKind == identity.signKind && buf == EncodeInfo(Contents())
    {
      var size := Size();
      buf := Resized(buf, size);
      var writer := new Writer(buf);
      ghost var e;
      ok, e := WriteBody(writer, now, random);
      if !ok || !identity.signKind.EdDSA? {
        return false;
      }
      Sign(writer);
    }

    /** Signs what was written, and puts the signature behind it. */
    method Sign(writer: Writer)
      requires Valid() && Contents().Valid() && writer.Valid() && writer.Done() == EncodeBody(Contents())
      requires |writer.buf| == writer.pos + SIG_LEN
      modifies writer, this`signature, this`signatureKind, this`buf
      ensures Contents() == old(Contents()).(signature := signature)
      ensures Contents().Valid() && Contents().SignedBy(scheme) && signatureKind == identity.signKind
      ensures buf == EncodeInfo(Contents())
    {
      signature := scheme.sign(identity.signKind, identity.signKey, writer.buf[..writer.Count()]);
      signatureKind := identity.signKind;
      Signed(old(Contents()), signature, scheme);
      var ok := writer.WriteData(signature);
      buf := writer.buf;
      WholeBuffer(buf, writer.Done());
    }

    /** Writes everything that is signed. */
    method WriteBody(writer: Writer, now: u64, random: Buffer) returns (ok: bool, ghost e: Buffer)
      requires Valid() && Usable() && |random| == PADDING_LEN
      requires writer.Valid() && writer.pos == 0 && |writer.buf| == Contents().Size()
      modifies writer, this`date, identity, identity.cert, options`buffer
      ensures ok <==> AllParamsOk(addresses)
      ensures writer.Valid() && |writer.buf| == |old(writer.buf)|
      ensures ok ==> Valid() && Usable() && Contents().Valid()
      ensures ok ==> Contents() == old(Contents()).(
        identity := old(identity.Contents()).(padding := random), date := now)
      ensures ok ==> e == EncodeBody(Contents()) && writer.Done() == e
    {
      e := [];
      ok := identity.Serialize(random);
      assert identity.buf == identity.buf[..IDENT_SIZE];
      ok := writer.WriteData(identity.buf);
      assert writer.Done() == EncodeIdent(identity.Contents());
      date := now;
      ok := WriteMiddle(writer, date, addresses);
      if !ok {
        return;
      }
      options.Serialize();
      ok := writer.WriteData(options.buffer);
      e := EncodeBody(Contents());
      Assoc(EncodeIdent(identity.Contents()), EncodeMiddle(date, addresses), Encode(options.kv));
    }

    method Deserialize() returns (ok: bool)
      requires Valid()
      modifies this`date, this`addresses, this`signature, this`signatureKind, identity, identity.cert, options
      ensures ok ==> Valid() && signatureKind == identity.signKind
      ensures var p := ParseInfo(buf, old(Contents()), old(|identity.cert.buffer|));
        ok == p.Some? && (ok ==> Contents() == p.value.0)
    {
      var reader := new Reader(buf);
      ok := ReadIdentity(reader);
      if ok {
        ok := ReadBody(reader);
      }
    }

    /** Everything after the identity. */
    method ReadBody(reader: Reader) returns (ok: bool)
      requires Valid() && reader.Valid()
      modifies reader, this`date, this`addresses, this`signature, this`signatureKind, options
      ensures reader.Valid() && (ok ==> Valid() && signatureKind == identity.signKind)
      ensures ParseBody(old(reader.Rest()), old(Contents()).identity, old(options.kv))
        == if ok then Some((Contents(), reader.Rest())) else None
    {
      ok, date, addresses := ReadMiddle(reader);
      if ok {
        ok := ReadTail(reader);
      }
    }

    /** Options and signature. */
    method ReadTail(reader: Reader) returns (ok: bool)
      requires Valid() && reader.Valid()
      modifies reader, options, this`signature, this`signatureKind
      ensures reader.Valid() && options.Valid() && (ok ==> signatureKind == identity.signKind)
      ensures ParseTail(old(reader.Rest()), old(options.kv))
        == if ok then Some((options.kv, signature, reader.Rest())) else None
    {
      ok := ReadOptions(reader);
      if !ok { return; }
      ok, signature := reader.ReadData(SIG_LEN);
      signatureKind := identity.signKind;
    }

    /** Reads the identity, and adds its public key to the options. */
    method ReadIdentity(reader: Reader) returns (ok: bool)
      requires Valid() && reader.Valid() && reader.pos == 0
      modifies reader, identity, identity.cert, options`kv
      ensures reader.Valid() && (ok ==> Valid())
      ensures var p := ProcessIdentity(reader.buf, old(Contents()), old(|identity.cert.buffer|));
        && ok == p.Some?
        && (ok ==> Contents() == old(Contents()).(identity := p.value.0, options := p.value.1))
      ensures ok ==> |reader.buf| >= IDENT_SIZE && reader.Rest() == reader.buf[IDENT_SIZE..]
    {
      var d, text;
      ok, d := reader.ReadData(|identity.buf|);
      if !ok { return; }
      identity.buf := d;
      ok := identity.Deserialize();
      if !ok { return; }
      text := Codecs.Encode(Codecs.Base64, identity.cryptoKey);
      ok := options.Add(KEY_S, text.value);
    }

    method ReadOptions(reader: Reader) returns (ok: bool)
      requires Valid() && reader.Valid()
      modifies reader, options
      ensures reader.Valid() && options.Valid()
      ensures ProcessOptions(old(reader.Rest()), old(options.kv))
        == if ok then Some((options.kv, reader.Rest())) else None
    {
      ghost var r := reader.Rest();
      var d;
      if reader.GCount() == 0 {
        return false;
      }
      ok, d := reader.ReadData(2);
      if !ok { return; }
      var size := FromNative16(d);
      if size == 0 {
        return true;
      }
      ok := reader.SkipBack(2);
      ok, d := reader.ReadData(SIZE_SIZE + size);
      if !ok { return; }
      options.buffer := d;
      ok := options.Deserialize();
      if ok {
        ok := CheckOptions();
      }
    }

    method CheckOptions() returns (ok: bool)
      ensures ok == OptionsOk(options.kv)
    {
      var s, v;
      ok, s := options.Find(KEY_S);
      ok, v := options.Find(KEY_V);
      ok := s != [] && v != [] && v[0] == VERSION[0];
    }

    /** Checks the signature over all of the buffer but its last 64 bytes; throws when there is nothing else in
        it, when the signature was made or read while the identity had another signing implementation, or when
        that is one of those that are not implemented. What was serialized or read back passes. */
    method Verify() returns (ok: bool, valid: bool)
      requires Valid() && |buf| >= SIG_LEN
      ensures ok <==> signatureKind == identity.signKind && identity.signKind.EdDSA? && |buf| > SIG_LEN
      ensures ok ==> forall body: Buffer, tail: Buffer :: buf == body + tail && |tail| == SIG_LEN ==>
        valid == scheme.verify(identity.signKind, identity.signKey, body, signature)
      ensures ok && Contents().Valid() && |signature| == SIG_LEN && buf == EncodeInfo(Contents()) ==>
        && valid == scheme.verify(identity.signKind, identity.signKey, EncodeBody(Contents()), signature)
        && (Contents().SignedBy(scheme) ==> valid)
    {
      ok, valid := signatureKind == identity.signKind && identity.signKind.EdDSA? && |buf| > SIG_LEN, false;
      if !ok { return; }
      valid := scheme.verify(identity.signKind, identity.signKey, buf[..|buf| - SIG_LEN], signature);
      if Contents().Valid() && |signature| == SIG_LEN && buf == EncodeInfo(Contents()) {
        assert buf == EncodeBody(Contents()) + signature;
        LastCut(EncodeBody(Contents()), signature);
      }
      forall body: Buffer, tail: Buffer | buf == body + tail && |tail| == SIG_LEN
        ensures body == buf[..|buf| - SIG_LEN]
      {
        LastCut(body, tail);
      }
    }
  }
}
