/** RouterInfos from the bytes' side: what reading accepts and writing gives back. */
module CanonicalInfos {
  import opened Bytes
  import opened Mappings
  import opened Addresses
  import opened Identities
  import opened Infos

  /** A new object, which has met no unsupported certificate and has no options. */
  ghost predicate New(old_: Info) {
    |old_.identity.cryptoKey| == KEY_LEN && !old_.identity.cert.unreachable && old_.options == []
  }

  /** The bytes were read under a key certificate whose kinds are supported. */
  ghost predicate Read(b: Buffer, old_: Info) {
    && New(old_) && ParseInfo(b, old_, KEY_CERT_SIZE).Some?
    && var c := ParseInfo(b, old_, KEY_CERT_SIZE).value.0.identity.cert; c.certType == KEY_CERT && !c.unreachable
  }

  // ---------------------------------------------------------------- the identity

  lemma CertOriginal(b: Buffer, old_: Cert)
    requires |b| == KEY_CERT_SIZE && ParseCert(b, old_).Some? && ParseCert(b, old_).value.0.certType == KEY_CERT
    ensures EncodeCert(ParseCert(b, old_).value.0) == b
  {
    NativeBytes16(b[1..3]);
    NativeBytes16(b[3..5]);
    NativeBytes16(b[5..7]);
    assert b == [b[0]] + b[1..3] + b[3..5] + b[5..7];
  }

  /** A supported key certificate makes the identity valid, and its bytes are the ones written again. */
  lemma IdentOriginal(b: Buffer, old_: Cert)
    requires |b| == IDENT_SIZE && ParseIdent(b, old_, KEY_CERT_SIZE).Reachable?
    requires ParseIdent(b, old_, KEY_CERT_SIZE).id.cert.certType == KEY_CERT
    ensures var id := ParseIdent(b, old_, KEY_CERT_SIZE).id;
      id.Valid() && EncodeIdent(id) == b
  {
    CertOriginal(b[KEYS_PADDING..IDENT_SIZE], old_);
    assert b == b[..32] + b[32..352] + b[352..384] + b[KEYS_PADDING..IDENT_SIZE];
  }

  // ---------------------------------------------------------------- the addresses

  ghost predicate AddrsInOrder(b: Buffer, n: nat)
    requires ProcessAddrs(b, n).Some?
  {
    n == 0 || (AddrInOrder(b + EncodeAddr(BLANK)) && AddrsInOrder(b[FirstAddr(b).value.0.Size()..], n - 1))
  }

  lemma CutFront(b: Buffer, e: Buffer, a: Buffer, rest: Buffer)
    requires b + e == a + rest && |a| <= |b|
    ensures b == a + b[|a|..]
  {
    assert b[..|a|] == (b + e)[..|a|] == (a + rest)[..|a|] == a;
    assert b == b[..|a|] + b[|a|..];
  }

  /** The first address, by the bytes of the buffer alone. */
  lemma FirstOriginal(b: Buffer)
    requires FirstAddr(b).Some? && FirstAddr(b).value.0.Size() <= |b|
    ensures var a := FirstAddr(b).value.0;
      a.Valid() && (b == EncodeAddr(a) + b[a.Size()..] <==> AddrInOrder(b + EncodeAddr(BLANK)))
  {
    var e := EncodeAddr(BLANK);
    var (a, rest) := FirstAddr(b).value;
    AddrOriginal(b + e);
    if b == EncodeAddr(a) + b[a.Size()..] {
      Assoc(EncodeAddr(a), b[a.Size()..], e);
      SelfDelimiting(a, [], b[a.Size()..] + e);
    }
    if b + e == EncodeAddr(a) + rest {
      CutFront(b, e, EncodeAddr(a), rest);
    }
  }

  lemma FrontAndRest(b: Buffer, a: Buffer, r: Buffer)
    requires |a| <= |b|
    ensures b == a + r <==> b == a + b[|a|..] && b[|a|..] == r
  {
    if b == a + r {
      assert (a + r)[|a|..] == r;
    }
  }

  lemma {:induction false} AddrsOriginal(b: Buffer, n: nat)
    requires ProcessAddrs(b, n).Some?
    ensures var (l, rest) := ProcessAddrs(b, n).value;
      AllValid(l) && (b == EncodeAddrs(l) + rest <==> AddrsInOrder(b, n))
  {
    var (l, rest) := ProcessAddrs(b, n).value;
    if n == 0 {
      assert EncodeAddrs(l) + rest == rest;
    } else {
      var a := FirstAddr(b).value.0;
      var b' := b[a.Size()..];
      AddrsOriginal(b', n - 1);
      FirstOriginal(b);
      assert l == [a] + l[1..] && l[1..] == ProcessAddrs(b', n - 1).value.0;
      Assoc(EncodeAddr(a), EncodeAddrs(l[1..]), rest);
      FrontAndRest(b, EncodeAddr(a), EncodeAddrs(l[1..]) + rest);
    }
  }

  // ---------------------------------------------------------------- date, addresses and peer size

  lemma Cut(r: Buffer)
    requires |r| >= 9
    ensures r == r[..8] + ([r[8]] + r[9..])
  {
  }

  lemma MiddleParts(m: Buffer, date: Buffer, n: byte, a: Buffer, tail: Buffer, r: Buffer)
    requires |date| == 8 && |r| >= 9 && r[..8] == date && r[8] == n && m == date + ([n] + (a + [0]))
    ensures r == m + tail <==> r[9..] == a + ([0] + tail)
  {
    MiddleLayout(date, n, a, tail);
    Cut(r);
    Cut(m + tail);
  }

  lemma SamePeer(t: Buffer)
    requires |t| >= 1
    ensures t == [0] + t[1..] <==> t[0] == 0
  {
  }

  /** The addresses' bytes, and a zero peer size. */
  lemma PeerOriginal(b: Buffer, l: seq<Addr>, t: Buffer)
    requires ProcessAddrs(b, |l|) == Some((l, t)) && |t| >= 1 && AllValid(l)
    ensures b == EncodeAddrs(l) + ([0] + t[1..]) <==> AddrsInOrder(b, |l|) && t[0] == 0
  {
    AddrsOriginal(b, |l|);
    SamePeer(t);
    if b == EncodeAddrs(l) + ([0] + t[1..]) {
      AddrsBack(l, [0] + t[1..]);
    }
  }

  lemma MiddleBytes(r: Buffer, date: u64, l: seq<Addr>, t: Buffer)
    requires |r| >= 9 && date == FromNative64(r[..8]) && r[8] as nat == |l| && AllValid(l)
    requires ProcessAddrs(r[9..], |l|) == Some((l, t)) && |t| >= 1
    ensures r == EncodeMiddle(date, l) + t[1..] <==> AddrsInOrder(r[9..], |l|) && t[0] == 0
  {
    NativeBytes64(r[..8]);
    CountByte(|l|);
    MiddleParts(EncodeMiddle(date, l), r[..8], r[8], EncodeAddrs(l), t[1..], r);
    PeerOriginal(r[9..], l, t);
  }

  lemma MiddleOriginal(r: Buffer)
    requires ParseMiddle(r).Some?
    ensures var (date, l, tail) := ParseMiddle(r).value;
      && AllValid(l) && |l| <= 255
      && (r == EncodeMiddle(date, l) + tail
          <==> AddrsInOrder(r[9..], r[8]) && ProcessAddrs(r[9..], r[8]).value.1[0] == 0)
  {
    var (l, t) := ProcessAddrs(r[9..], r[8]).value;
    AddrsOriginal(r[9..], r[8]);
    MiddleBytes(r, FromNative64(r[..8]), l, t);
  }

  // ---------------------------------------------------------------- options and signature

  lemma KeyOptionFails(key: Buffer)
    requires key != []
    ensures KeyOption(key) != [] && !OptionsOk(KeyOption(key))
  {
    var kv := KeyOption(key);
    assert kv[1..] == [] && KEY_S[0] != KEY_V[0] && kv[0].key == KEY_S;
    assert Lookup(kv[1..], KEY_V) == None == Lookup(kv, KEY_V);
  }

  lemma KeyOptionValid(key: Buffer)
    requires |key| == KEY_LEN
    ensures ValidEntries(KeyOption(key))
  {
    KeyText(key);
    AddKeepsValid([], KeyOption(key)[0]);
  }

  lemma TailOriginal(o: Buffer, kv0: seq<Entry>)
    requires ParseTail(o, kv0).Some? && FromNative16(o[..2]) != 0
    ensures var (kv, sig, rest) := ParseTail(o, kv0).value;
      && ValidEntries(kv) && OptionsOk(kv) && |sig| == SIG_LEN
      && |o| == SIZE_SIZE + FromNative16(o[..2]) + SIG_LEN + |rest|
      && (o == Encode(kv) + (sig + rest) <==> InOrder(o[SIZE_SIZE..SIZE_SIZE + FromNative16(o[..2])], []))
  {
    var n := SIZE_SIZE + FromNative16(o[..2]);
    assert o[..n][..2] == o[..2];
    assert ParseOptions(o, kv0) == ParseOptions(o, []);
    OptionsOriginal(o);
    var r := ParseOptions(o, []).value.1;
    assert r == r[..SIG_LEN] + r[SIG_LEN..];
  }

  // ---------------------------------------------------------------- the whole RouterInfo

  /** What is read, part by part. */
  ghost predicate Parts(b: Buffer, old_: Info, v: Info, tail: Buffer, rest: Buffer) {
    && |b| >= IDENT_SIZE && ParseIdent(b[..IDENT_SIZE], old_.identity.cert, KEY_CERT_SIZE) == Reachable(v.identity)
    && v.identity.cert.certType == KEY_CERT && v.identity.cryptoKey != []
    && ParseMiddle(b[IDENT_SIZE..]) == Some((v.date, v.addresses, tail))
    && ParseTail(tail, KeyOption(v.identity.cryptoKey)) == Some((v.options, v.signature, rest))
  }

  lemma ReadParts(b: Buffer, old_: Info)
    requires Read(b, old_)
    ensures ParseMiddle(b[IDENT_SIZE..]).Some?
    ensures var (v, rest) := ParseInfo(b, old_, KEY_CERT_SIZE).value;
      Parts(b, old_, v, ParseMiddle(b[IDENT_SIZE..]).value.2, rest)
  {
    var v := ParseInfo(b, old_, KEY_CERT_SIZE).value.0;
    KeyText(v.identity.cryptoKey);
  }

  /** The options' length field is not zero. */
  predicate HasOptions(tail: Buffer) {
    |tail| >= SIZE_SIZE && FromNative16(tail[..2]) != 0
  }

  /** What is read is valid; without options of its own it holds just its key. */
  lemma PartsValid(b: Buffer, old_: Info, v: Info, tail: Buffer, rest: Buffer)
    requires Parts(b, old_, v, tail, rest)
    ensures v.Valid() && |v.signature| == SIG_LEN && |v.addresses| <= 255
    ensures OptionsOk(v.options) <==> HasOptions(tail)
    ensures b[..IDENT_SIZE] == EncodeIdent(v.identity)
  {
    IdentOriginal(b[..IDENT_SIZE], old_.identity.cert);
    MiddleOriginal(b[IDENT_SIZE..]);
    if HasOptions(tail) {
      TailOriginal(tail, KeyOption(v.identity.cryptoKey));
    } else {
      KeyText(v.identity.cryptoKey);
      KeyOptionFails(v.identity.cryptoKey);
      KeyOptionValid(v.identity.cryptoKey);
    }
  }

  /** For any bytes read, what was read is valid, and writing it gives bytes that read back to it, exactly when
      the bytes had options of their own. */
  lemma CanonicalForm(b: Buffer, old_: Info, any: Info)
    requires Read(b, old_) && New(any)
    ensures ParseMiddle(b[IDENT_SIZE..]).Some?
    ensures var v := ParseInfo(b, old_, KEY_CERT_SIZE).value.0;
      && v.Valid()
      && (ParseInfo(EncodeInfo(v), any, KEY_CERT_SIZE) == Some((v, []))
          <==> HasOptions(ParseMiddle(b[IDENT_SIZE..]).value.2))
  {
    var (v, rest) := ParseInfo(b, old_, KEY_CERT_SIZE).value;
    ReadParts(b, old_);
    PartsValid(b, old_, v, ParseMiddle(b[IDENT_SIZE..]).value.2, rest);
    Infos.RoundTrip(v, any);
  }

  // ---------------------------------------------------------------- the original bytes

  /** The options are in order and there are some, and nothing follows the signature. */
  ghost predicate TailInOrder(tail: Buffer) {
    && HasOptions(tail) && |tail| == SIZE_SIZE + FromNative16(tail[..2]) + SIG_LEN
    && InOrder(tail[SIZE_SIZE..SIZE_SIZE + FromNative16(tail[..2])], [])
  }

  /** Every mapping is in order, the peer size is zero, and the options end it all. */
  ghost predicate BytesInOrder(b: Buffer)
    requires |b| >= IDENT_SIZE && ParseMiddle(b[IDENT_SIZE..]).Some?
  {
    var r := b[IDENT_SIZE..];
    && AddrsInOrder(r[9..], r[8]) && ProcessAddrs(r[9..], r[8]).value.1[0] == 0
    && TailInOrder(ParseMiddle(r).value.2)
  }

  /** Options and signature, written again as they were read. */
  lemma TailBytes(v: Info, tail: Buffer, kv0: seq<Entry>, rest: Buffer)
    requires ParseTail(tail, kv0) == Some((v.options, v.signature, rest)) && v.Valid() && |v.signature| == SIG_LEN
    requires (OptionsOk(v.options) <==> HasOptions(tail)) && v.options != []
    ensures tail == Encode(v.options) + (v.signature + []) <==> TailInOrder(tail)
  {
    if tail == Encode(v.options) + (v.signature + []) {
      TailBack(v.options, kv0, v.signature, []);
      TailOriginal(tail, kv0);
    }
    if TailInOrder(tail) {
      TailOriginal(tail, kv0);
      assert rest == [];
    }
  }

  lemma OptionsThere(v: Info, tail: Buffer, rest: Buffer)
    requires v.identity.cryptoKey != []
    requires ParseTail(tail, KeyOption(v.identity.cryptoKey)) == Some((v.options, v.signature, rest))
    requires OptionsOk(v.options) <==> HasOptions(tail)
    ensures v.options != []
  {
    if HasOptions(tail) {
      assert Lookup(v.options, KEY_S).Some?;
    }
  }

  lemma ThreeParts(b: Buffer, i: Buffer, r: Buffer, m: Buffer, tail: Buffer, x: Buffer)
    requires b == i + r && (r == m + x ==> tail == x)
    ensures b == i + (m + x) <==> r == m + tail && tail == x
  {
    SameFront(i, r, m + x);
  }

  /** What is left after the addresses does not depend on how they were read. */
  lemma TailLeft(r: Buffer, date: u64, l: seq<Addr>, tail: Buffer, x: Buffer)
    requires ParseMiddle(r) == Some((date, l, tail)) && AllValid(l) && |l| <= 255
    ensures r == EncodeMiddle(date, l) + x ==> tail == x
  {
    MiddleBack(date, l, x);
  }

  lemma WholeLayout(v: Info)
    requires v.Valid()
    ensures EncodeInfo(v)
      == EncodeIdent(v.identity) + (EncodeMiddle(v.date, v.addresses) + (Encode(v.options) + (v.signature + [])))
  {
    InfoLayout(v, []);
    assert EncodeInfo(v) + [] == EncodeInfo(v);
  }

  lemma PartsOriginal(b: Buffer, old_: Info, v: Info, tail: Buffer, rest: Buffer)
    requires Parts(b, old_, v, tail, rest)
    ensures v.Valid() && (b == EncodeInfo(v) <==> BytesInOrder(b))
  {
    PartsValid(b, old_, v, tail, rest);
    OptionsThere(v, tail, rest);
    var (r, x) := (b[IDENT_SIZE..], Encode(v.options) + (v.signature + []));
    TailBytes(v, tail, KeyOption(v.identity.cryptoKey), rest);
    MiddleOriginal(r);
    TailLeft(r, v.date, v.addresses, tail, x);
    assert b == b[..IDENT_SIZE] + r;
    ThreeParts(b, EncodeIdent(v.identity), r, EncodeMiddle(v.date, v.addresses), tail, x);
    WholeLayout(v);
  }

  /** Writing what was read gives the bytes that were read exactly when these are in order. */
  lemma OriginalBytes(b: Buffer, old_: Info)
    requires Read(b, old_)
    ensures ParseMiddle(b[IDENT_SIZE..]).Some?
    ensures var v := ParseInfo(b, old_, KEY_CERT_SIZE).value.0;
      v.Valid() && (b == EncodeInfo(v) <==> BytesInOrder(b))
  {
    var (v, rest) := ParseInfo(b, old_, KEY_CERT_SIZE).value;
    ReadParts(b, old_);
    PartsOriginal(b, old_, v, ParseMiddle(b[IDENT_SIZE..]).value.2, rest);
  }

  lemma BodyAndTail(b: Buffer)
    requires |b| >= SIG_LEN
    ensures b == b[..|b| - SIG_LEN] + b[|b| - SIG_LEN..]
  {
  }

  lemma SameBody(v: Info, s: Buffer)
    requires v.Valid()
    ensures v.(signature := s).Valid() && EncodeInfo(v.(signature := s)) == EncodeBody(v) + s
  {
  }

  lemma SignatureBack(w: Info, b: Buffer, old_: Info)
    requires New(old_) && w.Valid() && |w.signature| == SIG_LEN && |w.addresses| <= 255 && w.options != []
    requires b == EncodeInfo(w)
    ensures var p := ParseInfo(b, old_, KEY_CERT_SIZE); p.Some? ==> p.value.0.signature == w.signature
  {
    InfoBack(w, old_, []);
    assert b + [] == b;
  }

  lemma BodyFits(b: Buffer, v: Info, old_: Info, rest: Buffer)
    requires New(old_) && v.Valid() && |v.addresses| <= 255 && v.options != []
    requires ParseInfo(b, old_, KEY_CERT_SIZE) == Some((v, rest))
    requires |b| >= SIG_LEN && b[..|b| - SIG_LEN] == EncodeBody(v)
    ensures b == EncodeInfo(v)
  {
    var s := b[|b| - SIG_LEN..];
    BodyAndTail(b);
    SameBody(v, s);
    SignatureBack(v.(signature := s), b, old_);
  }

  /** And exactly then what verification looks at, all but the last 64 bytes, is what signing the contents that
      were read would sign. */
  lemma SignedBytes(b: Buffer, old_: Info)
    requires Read(b, old_)
    ensures ParseMiddle(b[IDENT_SIZE..]).Some? && |b| >= SIG_LEN
    ensures var v := ParseInfo(b, old_, KEY_CERT_SIZE).value.0;
      v.Valid() && (b[..|b| - SIG_LEN] == EncodeBody(v) <==> BytesInOrder(b))
  {
    var (v, rest) := ParseInfo(b, old_, KEY_CERT_SIZE).value;
    OriginalBytes(b, old_);
    ReadParts(b, old_);
    PartsValid(b, old_, v, ParseMiddle(b[IDENT_SIZE..]).value.2, rest);
    OptionsThere(v, ParseMiddle(b[IDENT_SIZE..]).value.2, rest);
    if b[..|b| - SIG_LEN] == EncodeBody(v) {
      BodyFits(b, v, old_, rest);
    }
    LastCut(EncodeBody(v), v.signature);
  }

  // ---------------------------------------------------------------- inputs at which these fail

  lemma OptionsNotEmpty(kv: seq<Entry>)
    requires OptionsOk(kv)
    ensures kv != []
  {
    assert Lookup(kv, KEY_S).Some?;
  }

  /** A RouterInfo with a byte behind it is read as if it had none. */
  lemma TrailingByte(v: Info, old_: Info)
    requires New(old_) && v.Valid() && |v.signature| == SIG_LEN && |v.addresses| <= 255 && OptionsOk(v.options)
    ensures var b := EncodeInfo(v) + [0];
      && ParseInfo(b, old_, KEY_CERT_SIZE) == Some((v, [0])) && Read(b, old_)
      && ParseMiddle(b[IDENT_SIZE..]).Some? && !BytesInOrder(b)
  {
    InfoBack(v, old_, [0]);
    OptionsNotEmpty(v.options);
    OriginalBytes(EncodeInfo(v) + [0], old_);
  }

  /** One without options is read once, but what was read is refused when it is read again. */
  lemma WithoutOptions(v: Info, old_: Info, any: Info)
    requires New(old_) && New(any) && v.Valid() && |v.signature| == SIG_LEN && |v.addresses| <= 255 && v.options == []
    ensures var w := v.(options := KeyOption(v.identity.cryptoKey));
      && ParseInfo(EncodeInfo(v), old_, KEY_CERT_SIZE) == Some((w, []))
      && w.Valid() && ParseInfo(EncodeInfo(w), any, KEY_CERT_SIZE) == None
  {
    var w := v.(options := KeyOption(v.identity.cryptoKey));
    KeyOptionValid(v.identity.cryptoKey);
    KeyOptionFails(v.identity.cryptoKey);
    InfoBack(v, old_, []);
    InfoBack(w, any, []);
    assert EncodeInfo(v) + [] == EncodeInfo(v) && EncodeInfo(w) + [] == EncodeInfo(w);
  }
}
