/** Router certificates and identities: a fixed 384-byte key area followed by the certificate. */
module Identities {
  import opened Bytes

  // ---------------------------------------------------------------- certificates

  const NULL_CERT: byte := 0
  const KEY_CERT: byte := 5
  const KEY_CERT_SIZE: nat := 7

  const ED_DSA: u16 := 7
  const RED_DSA: u16 := 11
  const XED_DSA: u16 := 12
  const ECIES_X25519: u16 := 4
  const ECIES_X25519_BLAKE: u16 := 5

  /** The contents of a certificate; the last field is set once and never cleared. */
  datatype Cert = Cert(certType: byte, length: u16, signType: u16, cryptoType: u16, unreachable: bool)
  {
    predicate ParamsOk() {
      (certType == NULL_CERT || certType == KEY_CERT) && (certType == KEY_CERT ==> length as nat == KEY_CERT_SIZE)
    }

    predicate Supported() {
      && length != 0
      && (cryptoType == ECIES_X25519 || cryptoType == ECIES_X25519_BLAKE)
      && (signType == ED_DSA || signType == RED_DSA || signType == XED_DSA)
    }

    /** What checking the parameters leaves behind when it does not throw. */
    function Checked(): Cert {
      this.(unreachable := unreachable || !Supported())
    }
  }

  ghost function EncodeCert(c: Cert): (b: Buffer)
    ensures |b| == KEY_CERT_SIZE
  {
    [c.certType] + Native16(c.length) + Native16(c.signType) + Native16(c.cryptoType)
  }

  /** Reading over an existing certificate: which fields are read depends on the length field and on how
      much is left. The second result is the number of bytes read. */
  ghost function ParseCert(b: Buffer, old_: Cert): Option<(Cert, nat)> {
    if |b| < 3 then None else
    var (t, n) := (b[0], FromNative16(b[1..3]));
    var (s, p) := if n != 0 && |b| > 3 then (true, 5) else (false, 3);
    if |b| < p then None else
    var (k, q) := if n != 0 && |b| > p then (true, p + 2) else (false, p);
    if |b| < q then None else
    var c := Cert(t, n, if s then FromNative16(b[3..5]) else old_.signType,
                  if k then FromNative16(b[p..p + 2]) else old_.cryptoType, old_.unreachable);
    if c.ParamsOk() then Some((c.Checked(), q)) else None
  }

  /** A kind, if there is one: otherwise it stays as it was. */
  method ReadKind(reader: Reader, wanted: bool, before: u16) returns (ok: bool, kind: u16)
    requires reader.Valid()
    modifies reader
    ensures reader.Valid()
    ensures var (b, p) := (reader.buf, old(reader.pos));
      if !wanted || |b| == p then ok && reader.pos == p && kind == before
      else ok == (|b| >= p + 2) && (ok ==> reader.pos == p + 2 && kind == FromNative16(b[p..p + 2]))
  {
    var d;
    ok, kind := true, before;
    if wanted && reader.GCount() != 0 {
      ghost var p := reader.pos;
      ok, d := reader.ReadData(2);
      if ok {
        Slices(reader.buf, p, 2);
        kind := FromNative16(d);
      }
    }
  }

  class Certificate {
    var fields: Cert
    var buffer: Buffer

    constructor (signType: u16, cryptoType: u16)
      ensures fields == Cert(KEY_CERT, 7, signType, cryptoType, false).Checked()
      ensures buffer == EncodeCert(fields)
    {
      fields, buffer := Cert(KEY_CERT, 7, signType, cryptoType, false), Zeros(KEY_CERT_SIZE);
      new;
      var ok := Serialize();
    }

    method Serialize() returns (ok: bool)
      modifies this
      ensures ok == old(fields).ParamsOk()
      ensures fields == if ok then old(fields).Checked() else old(fields)
      ensures buffer == if ok then EncodeCert(fields) else old(buffer)
    {
      if !fields.ParamsOk() {
        return false;
      }
      fields := fields.Checked();
      if |buffer| != KEY_CERT_SIZE {
        buffer := Resized(buffer, KEY_CERT_SIZE);
      }
      var writer := new Writer(buffer);
      ok := writer.WriteData([fields.certType]);
      ok := writer.WriteData(Native16(fields.length));
      ok := writer.WriteData(Native16(fields.signType));
      ok := writer.WriteData(Native16(fields.cryptoType));
      assert writer.buf == writer.Done() == EncodeCert(fields);
      buffer := writer.buf;
    }

    method Deserialize() returns (ok: bool)
      modifies this
      ensures ok <==> ParseCert(old(buffer), old(fields)).Some?
      ensures ok ==> (fields, |buffer|) == ParseCert(old(buffer), old(fields)).value
      ensures ok ==> buffer == old(buffer)[..|buffer|]
    {
      var b := buffer;
      var reader := new Reader(b);
      var t, d;
      ok, t := reader.ReadByte();
      if !ok { return; }
      ok, d := reader.ReadData(2);
      if !ok { return; }
      assert d == b[1..3];
      fields := fields.(certType := t, length := FromNative16(d));
      var w;
      ok, w := ReadKind(reader, fields.length != 0, fields.signType);
      if !ok { return; }
      fields := fields.(signType := w);
      ok, w := ReadKind(reader, fields.length != 0, fields.cryptoType);
      if !ok { return; }
      fields := fields.(cryptoType := w);
      if !fields.ParamsOk() {
        return false;
      }
      fields := fields.Checked();
      buffer := Resized(b, reader.Count());
    }
  }

  // ---------------------------------------------------------------- identities

  const KEYS_PADDING: nat := 384
  const KEY_LEN: nat := 32
  const PADDING_LEN: nat := KEYS_PADDING - 2 * KEY_LEN
  const IDENT_SIZE: nat := KEYS_PADDING + KEY_CERT_SIZE

  datatype CryptoKind = EciesHmac | EciesBlake
  {
    function Type(): u16 {
      if EciesHmac? then ECIES_X25519 else ECIES_X25519_BLAKE
    }
  }

  datatype SignKind = EdDSA | RedDSA | XEdDSA
  {
    function Type(): u16 {
      if EdDSA? then ED_DSA else if RedDSA? then RED_DSA else XED_DSA
    }
  }

  /** The contents of an identity. */
  datatype Ident = Ident(cryptoKind: CryptoKind, cryptoKey: Buffer, padding: Buffer, signKind: SignKind,
                         signKey: Buffer, cert: Cert)
  {
    /** Keys of the right size, with a key certificate that names their kinds. */
    ghost predicate Valid() {
      && |cryptoKey| == KEY_LEN && |signKey| == KEY_LEN && |padding| == PADDING_LEN
      && cert == Cert(KEY_CERT, 7, signKind.Type(), cryptoKind.Type(), false)
    }

    function Size(): nat {
      KEY_LEN + |padding| + KEY_LEN + cert.length
    }
  }

  ghost function EncodeIdent(id: Ident): (b: Buffer)
    requires |id.cryptoKey| == |id.signKey| == KEY_LEN && |id.padding| == PADDING_LEN
    ensures |b| == IDENT_SIZE
  {
    id.cryptoKey + id.padding + id.signKey + EncodeCert(id.cert)
  }

  /** Reading an identity: an exception; an unsupported certificate, on which it returns early with the keys
      untouched; or the whole contents. The certificate is read over an old one, of n bytes. */
  datatype IdentResult = Throws | Unreachable(cert: Cert) | Reachable(id: Ident)

  function CryptoKindOf(t: u16): CryptoKind {
    if t == ECIES_X25519 then EciesHmac else EciesBlake
  }

  function SignKindOf(t: u16): SignKind {
    if t == ED_DSA then EdDSA else if t == RED_DSA then RedDSA else XEdDSA
  }

  /** The key area read the way the certificate says. */
  ghost function KeysFrom(b: Buffer, c: Cert): Ident
    requires |b| >= KEYS_PADDING
  {
    Ident(CryptoKindOf(c.cryptoType), b[..32], b[32..352], SignKindOf(c.signType), b[352..384], c)
  }

  ghost function ParseIdent(b: Buffer, old_: Cert, n: nat): IdentResult {
    if |b| < KEYS_PADDING + n then Throws else
    match ParseCert(b[KEYS_PADDING..KEYS_PADDING + n], old_)
    case None => Throws
    case Some((c, _)) =>
      if c.unreachable then Unreachable(c) else Reachable(KeysFrom(b, c))
  }

  lemma KeySlices(b: Buffer)
    requires |b| >= KEYS_PADDING
    ensures b[0..][..32] == b[..32] && b[0..][32..] == b[32..]
    ensures b[32..][..320] == b[32..352] && b[32..][320..] == b[352..] && b[352..][..32] == b[352..384]
  {
  }

  class Identity {
    /** SHA-256, of which nothing is assumed. */
    const sha: Buffer -> Buffer
    var cryptoKind: CryptoKind
    var cryptoKey: Buffer
    var padding: Buffer
    var signKind: SignKind
    var signKey: Buffer
    var hash: Buffer
    var buf: Buffer
    const cert: Certificate

    ghost predicate Valid()
      reads this, cert
    {
      && |cryptoKey| == |signKey| == KEY_LEN
      && (|cert.buffer| == KEY_CERT_SIZE || cert.fields.unreachable)
    }

    function Contents(): Ident
      reads this, cert
    {
      Ident(cryptoKind, cryptoKey, padding, signKind, signKey, cert.fields)
    }

    constructor (sha: Buffer -> Buffer, ck: CryptoKind, cryptoKey: Buffer, sk: SignKind, signKey: Buffer,
                 random: Buffer)
      requires |cryptoKey| == |signKey| == KEY_LEN && |random| == PADDING_LEN
      ensures Valid() && fresh(cert) && this.sha == sha && Contents().Valid()
      ensures Contents() == Ident(ck, cryptoKey, random, sk, signKey, Cert(KEY_CERT, 7, sk.Type(), ck.Type(), false))
      ensures buf == EncodeIdent(Contents()) && |cert.buffer| == KEY_CERT_SIZE
    {
      this.sha, this.cryptoKind, this.cryptoKey, this.signKind, this.signKey := sha, ck, cryptoKey, sk, signKey;
      padding, hash, buf := [], [], Zeros(IDENT_SIZE);
      cert := new Certificate(sk.Type(), ck.Type());
      new;
      var ok := Serialize(random);
    }

    /** Random padding is drawn at every serialization. It throws when the certificate is not acceptable, or
        its length field makes the buffer too small for it. */
    method Serialize(random: Buffer) returns (ok: bool)
      requires Valid() && |random| == PADDING_LEN
      modifies this, cert
      ensures Valid() && padding == random && old(cert.fields).Checked() == cert.fields.Checked()
      ensures ok == (old(cert.fields).ParamsOk() && old(cert.fields).length as nat >= KEY_CERT_SIZE)
      ensures Contents() == old(Contents()).(padding := random, cert := cert.fields)
      ensures ok ==> cert.fields == old(cert.fields).Checked() && hash == sha(buf) && |buf| == Contents().Size()
      ensures ok ==> buf[..IDENT_SIZE] == EncodeIdent(Contents())
    {
      padding := random;
      buf := Resized(buf, Contents().Size());
      var writer := new Writer(buf);
      WriteKeys(writer);
      ok := cert.Serialize();
      if !ok { return; }
      ok := writer.WriteData(cert.buffer);
      if !ok { return; }
      assert writer.Done() == EncodeIdent(Contents());
      buf := writer.buf;
      hash := sha(buf);
    }

    method WriteKeys(writer: Writer)
      requires |cryptoKey| == |signKey| == KEY_LEN && |padding| == PADDING_LEN
      requires writer.Valid() && writer.pos == 0 && KEYS_PADDING <= |writer.buf|
      modifies writer
      ensures writer.Valid() && |writer.buf| == |old(writer.buf)| && writer.pos == KEYS_PADDING
      ensures writer.Done() == cryptoKey + padding + signKey
    {
      var ok := writer.WriteData(cryptoKey);
      ok := writer.WriteData(padding);
      ok := writer.WriteData(signKey);
    }

    method Deserialize() returns (ok: bool)
      requires Valid()
      modifies this, cert
      ensures ok ==> Valid()
      ensures var p := ParseIdent(old(buf), old(cert.fields), |old(cert.buffer)|);
        && ok == !p.Throws?
        && (p.Unreachable? ==> Contents() == old(Contents()).(cert := p.cert) && buf == old(buf))
        && (p.Reachable? ==> && Contents() == p.id && buf == old(buf)[..IDENT_SIZE] && hash == sha(buf)
                             && |cert.buffer| == KEY_CERT_SIZE)
    {
      var reader := new Reader(buf);
      ok := LoadCertificate(reader);
      if !ok { return; }
      if cert.fields.unreachable {
        return true;
      }
      ok := reader.SkipBack(KEYS_PADDING + |cert.buffer|);
      LoadKeys(reader);
      buf := Resized(buf, |cert.buffer| + reader.Count());
      hash := sha(buf);
    }

    /** As many bytes as the certificate's buffer has, after the keys and padding. */
    method LoadCertificate(reader: Reader) returns (ok: bool)
      requires reader.Valid() && reader.pos == 0
      modifies reader, cert
      ensures reader.Valid()
      ensures var (b, n) := (reader.buf, old(|cert.buffer|));
        if |b| < KEYS_PADDING + n then !ok
        else var p := ParseCert(b[KEYS_PADDING..KEYS_PADDING + n], old(cert.fields));
          && ok == p.Some?
          && (ok ==> reader.pos == KEYS_PADDING + n && cert.fields == p.value.0 && |cert.buffer| == p.value.1 <= n)
    {
      var d;
      ok := reader.SkipBytes(KEYS_PADDING);
      if !ok { return; }
      Slices(reader.buf, KEYS_PADDING, if KEYS_PADDING + |cert.buffer| <= |reader.buf| then |cert.buffer| else 0);
      ok, d := reader.ReadData(|cert.buffer|);
      if !ok { return; }
      cert.buffer := d;
      ok := cert.Deserialize();
    }

    /** Sets the variants to the kinds the certificate names, and reads their keys. */
    method LoadKeys(reader: Reader)
      requires reader.pos == 0 && KEYS_PADDING <= |reader.buf|
      modifies reader, `cryptoKind, `cryptoKey, `padding, `signKind, `signKey
      ensures reader.pos == KEYS_PADDING && Contents() == KeysFrom(reader.buf, cert.fields)
    {
      cryptoKind := CryptoKindOf(cert.fields.cryptoType);
      signKind := SignKindOf(cert.fields.signType);
      var ok;
      KeySlices(reader.buf);
      ok, cryptoKey := reader.ReadData(KEY_LEN);
      ok, padding := reader.ReadData(PADDING_LEN);
      ok, signKey := reader.ReadData(KEY_LEN);
    }
  }

  // ---------------------------------------------------------------- round trip

  lemma CertBack(c: Cert, old_: Cert)
    requires c.ParamsOk() && c.length != 0
    ensures ParseCert(EncodeCert(c), old_) == Some((c.(unreachable := old_.unreachable).Checked(), KEY_CERT_SIZE))
  {
    var b := EncodeCert(c);
    assert b[1..3] == Native16(c.length) && b[3..5] == Native16(c.signType) && b[5..7] == Native16(c.cryptoType);
  }

  /** A written identity reads back unchanged, whatever follows it, into an object that has not met an
      unsupported certificate; into one that has, its keys are never read again. */
  lemma IdentBack(id: Ident, old_: Cert, rest: Buffer)
    requires id.Valid()
    ensures var p := ParseIdent(EncodeIdent(id) + rest, old_, KEY_CERT_SIZE);
      if old_.unreachable then p.Unreachable? else p == Reachable(id)
  {
    var (c, b) := (EncodeCert(id.cert), EncodeIdent(id) + rest);
    assert b[KEYS_PADDING..KEYS_PADDING + KEY_CERT_SIZE] == c;
    assert b[..32] == id.cryptoKey && b[32..352] == id.padding && b[352..384] == id.signKey;
    CertBack(id.cert, old_);
  }
}
