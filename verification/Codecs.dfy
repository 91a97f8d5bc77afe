/** The Base32 and Base64 codecs: two regrouping loops over a 32-bit accumulator that is never
    cleared, and the bit-string meaning they refine. Text is a sequence of bytes. */
module Codecs {
  import opened Bytes
  import opened Bits
  import opened Floats

  const UPPER: string := "ABCDEFGHIJKLMNOPQRSTUVWXYZ"
  const LOWER: string := "abcdefghijklmnopqrstuvwxyz"
  const PAD: byte := '=' as int

  /** A comparison mask (0xff or 0x00) applied to a value. Where the code or-s several of these
      together, at most one is non-zero, so their sum is the same. */
  function Select(mask: bool, v: int): int {
    if mask then v else 0
  }

  /** The two instances of the codec. */
  datatype Variant = Base32 | Base64
  {
    function EncodedBits(): nat {
      if Base32? then 5 else 6
    }

    function ChunkLen(): nat {
      if Base32? then 40 else 24
    }

    predicate WithPadding() {
      Base64?
    }

    function ToChar(x: nat): byte
      requires x < Pow2(EncodedBits())
    {
      Pow2Values();
      var (a, A, d) := ('a' as int, 'A' as int, '0' as int);
      if Base32? then
        Select(x <= 25, x + a) + Select(x > 25, x + (d + 2 - 26))
      else
        Select(x < 26, x + A) + Select(26 <= x < 52, x + (a - 26)) + Select(52 <= x < 62, x + (d - 52))
        + Select(x == 62, '-' as int) + Select(x == 63, '~' as int)
    }

    /** The index of a character of the alphabet, 0xff for any other. */
    function ToByte(c: byte): byte {
      var (a, A, d) := ('a' as int, 'A' as int, '0' as int);
      var x :=
        if Base32? then
          Select(a <= c <= a + 25, c - a) + Select(d + 2 <= c <= d + 7, c - (d + 2 - 26))
        else
          Select(A <= c <= A + 25, c - A) + Select(a <= c <= a + 25, c - (a - 26))
          + Select(d <= c <= d + 9, c - (d - 52))
          + Select(c == '-' as int, 62) + Select(c == '~' as int, 63);
      x + Select(x == 0 && c != (if Base32? then a else A), 0xff)
    }

    function PadLen(size: nat): nat {
      var rem := (size * 8) % ChunkLen();
      if Base32? then
        if rem == 8 then 6 else if rem == 16 then 4 else if rem == 24 then 3 else if rem == 32 then 1 else 0
      else
        if rem == 8 then 2 else if rem == 16 then 1 else 0
    }

    /** The alphabets of sections 4 and 6 of RFC 4648, with I2P's two substitutions in Base64. */
    function Alphabet(): string {
      if Base32? then LOWER + "234567" else UPPER + (LOWER + ("0123456789" + "-~"))
    }
  }

  // ---------------------------------------------------------------- the alphabet

  lemma LetterAt(i: nat)
    requires i < 26
    ensures |UPPER| == 26 && UPPER[i] as int == 'A' as int + i
    ensures |LOWER| == 26 && LOWER[i] as int == 'a' as int + i
  {
  }

  lemma TailAt(i: nat)
    ensures i < 6 ==> "234567"[i] as int == '2' as int + i
    ensures i < 10 ==> "0123456789"[i] as int == '0' as int + i
  {
  }

  lemma ToCharIsAlphabet(v: Variant, x: nat)
    requires x < Pow2(v.EncodedBits())
    ensures |v.Alphabet()| == Pow2(v.EncodedBits())
    ensures v.ToChar(x) == v.Alphabet()[x] as int
  {
    Pow2Values();
    LetterAt(0);
    if x < 26 {
      LetterAt(x);
    } else if v.Base32? {
      TailAt(x - 26);
    } else if x < 52 {
      LetterAt(x - 26);
    } else if x < 62 {
      TailAt(x - 52);
    }
  }

  lemma CharOf(v: Variant, x: nat)
    requires x < Pow2(v.EncodedBits())
    ensures v.ToByte(v.ToChar(x)) == x && v.ToChar(x) != PAD
  {
    Pow2Values();
  }

  lemma ByteOf(v: Variant, c: byte)
    ensures v.ToByte(c) != 0xff ==> v.ToByte(c) < Pow2(v.EncodedBits()) && v.ToChar(v.ToByte(c)) == c
  {
    Pow2Values();
  }

  /** ToByte inverts ToChar, and rejects exactly what is not in ToChar's range. */
  lemma CharByte(v: Variant, x: nat, c: byte)
    ensures x < Pow2(v.EncodedBits()) ==> v.ToByte(v.ToChar(x)) == x && v.ToChar(x) != PAD
    ensures v.ToByte(c) != 0xff ==> v.ToByte(c) < Pow2(v.EncodedBits()) && v.ToChar(v.ToByte(c)) == c
    ensures v.ToByte(PAD) == 0xff
  {
    if x < Pow2(v.EncodedBits()) {
      CharOf(v, x);
    }
    ByteOf(v, c);
  }

  // ---------------------------------------------------------------- encoding

  ghost predicate Fits(ns: seq<nat>, w: nat) {
    forall i :: 0 <= i < |ns| ==> ns[i] < Pow2(w)
  }

  ghost function Chars(v: Variant, ns: seq<nat>): (t: Buffer)
    requires Fits(ns, v.EncodedBits())
    ensures |t| == |ns|
  {
    seq(|ns|, i requires 0 <= i < |ns| => v.ToChar(ns[i]))
  }

  function Pads(n: nat): (t: Buffer)
    ensures |t| == n
  {
    seq(n, _ => PAD)
  }

  /** The input's bit string, zero-filled and regrouped: what sections 4 and 6 of RFC 4648 prescribe. */
  ghost function Sextets(v: Variant, input: Buffer): (ns: seq<nat>)
    ensures Fits(ns, v.EncodedBits())
  {
    var w := v.EncodedBits();
    Groups(Filled(Flatten(input, 8), w), w)
  }

  /** None is the exception thrown on an empty input. */
  ghost function Text(v: Variant, input: Buffer): (r: Option<Buffer>) {
    if input == [] then None
    else Some(Chars(v, Sextets(v, input)) + Pads(if v.WithPadding() then v.PadLen(|input|) else 0))
  }

  ghost predicate Written(v: Variant, done: seq<bit>, out: Buffer) {
    var w := v.EncodedBits();
    Whole(done, w) && out == Chars(v, Groups(done, w))
  }

  /** The encoder between two steps: the groups already written out are the front of the octets
      taken so far, the rest is pending in the accumulator. */
  ghost predicate Encoding(v: Variant, taken: Buffer, out: Buffer, acc: nat, done: seq<bit>, pending: seq<bit>) {
    && Stream(Flatten(taken, 8), acc, done, pending)
    && Written(v, done, out)
  }

  lemma TakeOctet(v: Variant, input: Buffer, pos: nat, out: Buffer, acc: nat, done: seq<bit>, pending: seq<bit>)
    requires pos < |input| && Encoding(v, input[..pos], out, acc, done, pending) && |pending| <= 24
    ensures Encoding(v, input[..pos + 1], out, Push(acc, 8, input[pos]), done, pending + NatBits(input[pos], 8))
  {
    var (taken, b) := (input[..pos], input[pos]);
    assert input[..pos + 1] == taken + [b];
    assert b < Pow2(8) by {
      Pow2Values();
    }
    FlattenAppend(taken, b, 8);
    StreamIn(Flatten(taken, 8), acc, done, pending, 8, b);
  }

  lemma WriteGroup(v: Variant, done: seq<bit>, out: Buffer, g: seq<bit>)
    requires Written(v, done, out) && |g| == v.EncodedBits()
    ensures Written(v, done + g, out + [v.ToChar(Value(g))])
  {
    GroupsAppend(done, g, v.EncodedBits());
  }

  lemma PutGroup(v: Variant, taken: Buffer, out: Buffer, acc: nat, done: seq<bit>, pending: seq<bit>, w: nat)
    requires Encoding(v, taken, out, acc, done, pending) && w == v.EncodedBits() <= |pending|
    ensures var c := v.ToChar(Mask(Shr(acc, |pending| - w), w));
      Encoding(v, taken, out + [c], acc, done + pending[..w], pending[w..])
  {
    StreamOut(Flatten(taken, 8), acc, done, pending, w);
    WriteGroup(v, done, out, pending[..w]);
  }

  lemma LastSextet(v: Variant, taken: Buffer, done: seq<bit>, pending: seq<bit>, k: nat)
    requires Flatten(taken, 8) == done + pending && Whole(done, v.EncodedBits())
    requires 0 < |pending| && |pending| + k == v.EncodedBits()
    ensures Sextets(v, taken) == Groups(done + (pending + NatBits(0, k)), v.EncodedBits())
  {
    FilledAppend(done, pending, |pending| + k);
  }

  /** The last group, complete or not, is shifted up to the full width. */
  lemma PutLast(v: Variant, taken: Buffer, out: Buffer, acc: nat, done: seq<bit>, pending: seq<bit>, k: nat)
    requires Encoding(v, taken, out, acc, done, pending) && 0 < |pending| && |pending| + k == v.EncodedBits()
    ensures Chars(v, Sextets(v, taken)) == out + [v.ToChar(Mask(Shl(acc, k), |pending| + k))]
  {
    ShiftUp(acc, pending, k);
    LastSextet(v, taken, done, pending, k);
    WriteGroup(v, done, out, pending + NatBits(0, k));
  }

  lemma PadsNext(body: Buffer, n: nat)
    ensures body + Pads(n + 1) == body + Pads(n) + [PAD]
  {
  }

  method AppendPadding(v: Variant, body: Buffer, n: nat) returns (out: Buffer)
    ensures out == body + Pads(if v.WithPadding() then v.PadLen(n) else 0)
  {
    out := body;
    assert body + Pads(0) == body;
    if v.WithPadding() {
      var padBytes := v.PadLen(n);
      for padPos := 0 to padBytes
        invariant out == body + Pads(padPos)
      {
        PadsNext(body, padPos);
        out := out + [PAD];
      }
    }
  }

  /** What is left of the accumulator after the loop, and the padding. */
  method Finish(v: Variant, input: Buffer, out: Buffer, acc: nat, accLen: nat,
                ghost done: seq<bit>, ghost pending: seq<bit>) returns (text: Buffer)
    requires Encoding(v, input, out, acc, done, pending) && 0 < accLen == |pending| <= v.EncodedBits()
    ensures text == Chars(v, Sextets(v, input)) + Pads(if v.WithPadding() then v.PadLen(|input|) else 0)
  {
    var w := v.EncodedBits();
    text := out;
    if accLen != 0 {
      PutLast(v, input, out, acc, done, pending, w - accLen);
      text := out + [v.ToChar(Mask(Shl(acc, w - accLen), w))];
    }
    text := AppendPadding(v, text, |input|);
  }

  /** Writes out the complete groups, and keeps something pending. */
  method PutGroups(v: Variant, ghost taken: Buffer, out0: Buffer, acc: nat, accLen0: nat, ghost done0: seq<bit>,
                   ghost pending0: seq<bit>)
    returns (out: Buffer, accLen: nat, ghost done: seq<bit>, ghost pending: seq<bit>)
    requires Encoding(v, taken, out0, acc, done0, pending0) && accLen0 == |pending0| > 0
    ensures Encoding(v, taken, out, acc, done, pending) && 0 < accLen == |pending| <= v.EncodedBits()
  {
    var w := v.EncodedBits();
    out, accLen, done, pending := out0, accLen0, done0, pending0;
    while accLen > w
      invariant Encoding(v, taken, out, acc, done, pending) && accLen == |pending| > 0
    {
      PutGroup(v, taken, out, acc, done, pending, w);
      accLen := accLen - w;
      out := out + [v.ToChar(Mask(Shr(acc, accLen), w))];
      done, pending := done + pending[..w], pending[w..];
    }
  }

  method Encode(v: Variant, input: Buffer) returns (r: Option<Buffer>)
    ensures r == Text(v, input)
  {
    if |input| == 0 {
      return None;
    }
    var w := v.EncodedBits();
    var out: Buffer := [];
    var nPos: nat, acc: nat, accLen: nat := 0, 0, 0;
    ghost var done: seq<bit>, pending: seq<bit> := [], [];
    while nPos < |input|
      invariant nPos <= |input| && Encoding(v, input[..nPos], out, acc, done, pending)
      invariant accLen == |pending| <= w && (nPos > 0 ==> accLen > 0)
    {
      TakeOctet(v, input, nPos, out, acc, done, pending);
      pending := pending + NatBits(input[nPos], 8);
      acc := Push(acc, 8, input[nPos]);
      nPos := nPos + 1;
      accLen := accLen + 8;
      out, accLen, done, pending := PutGroups(v, input[..nPos], out, acc, accLen, done, pending);
    }
    assert input[..nPos] == input;
    out := Finish(v, input, out, acc, accLen, done, pending);
    return Some(out);
  }

  // ---------------------------------------------------------------- decoding

  /** The buffer size the decoder allocates, computed in single precision:
      the encoded bits over the chunk length, times the group width, rounding towards zero. */
  function DecodedLen(v: Variant, size: nat): nat {
    if size == 0 then 0
    else Scaled((size * v.EncodedBits()) as real, v.ChunkLen() as real, v.EncodedBits() as real).Floor
  }

  datatype Decoded = Data(data: Buffer) | NullInput | InvalidByte | MaxLengthExceeded

  /** How many leading characters belong to the alphabet. */
  function Lead(v: Variant, s: Buffer): (k: nat)
    ensures k <= |s|
    ensures forall i :: 0 <= i < k ==> v.ToByte(s[i]) != 0xff
    ensures k < |s| ==> v.ToByte(s[k]) == 0xff
  {
    if s == [] || v.ToByte(s[0]) == 0xff then 0 else 1 + Lead(v, s[1..])
  }

  ghost function Indices(v: Variant, s: Buffer): (ns: seq<nat>)
    ensures |ns| == |s| && forall i :: 0 <= i < |s| ==> ns[i] == v.ToByte(s[i])
  {
    seq(|s|, i requires 0 <= i < |s| => v.ToByte(s[i]))
  }

  ghost function Octets(s: seq<bit>): (b: Buffer)
    ensures b == Groups(s, 8)
  {
    Pow2Values();
    Groups(s, 8)
  }

  /** What decoding means: the whole octets of the leading characters' bits, if they fit the buffer
      and a padding character or the end follows them. */
  ghost function Decoding(v: Variant, input: Buffer): Decoded {
    var k := Lead(v, input);
    if input == [] then NullInput
    else if k * v.EncodedBits() / 8 > DecodedLen(v, |input|) then MaxLengthExceeded
    else if k < |input| && input[k] != PAD then InvalidByte
    else Data(Octets(Flatten(Indices(v, input[..k]), v.EncodedBits())))
  }

  /** The decoder between two steps, after taking some characters of the alphabet. */
  ghost predicate Taking(v: Variant, taken: Buffer, out: Buffer, acc: nat, done: seq<bit>, pending: seq<bit>) {
    && Stream(Flatten(Indices(v, taken), v.EncodedBits()), acc, done, pending)
    && Whole(done, 8) && out == Octets(done)
  }

  lemma TakeChar(v: Variant, input: Buffer, pos: nat, out: Buffer, acc: nat, done: seq<bit>, pending: seq<bit>, w: nat)
    requires pos < |input| && Taking(v, input[..pos], out, acc, done, pending) && |pending| < 8 && w == v.EncodedBits()
    requires v.ToByte(input[pos]) != 0xff
    ensures var d := v.ToByte(input[pos]);
      Taking(v, input[..pos + 1], out, Push(acc, w, d), done, pending + NatBits(d, w))
    ensures Lead(v, input[pos..]) == 1 + Lead(v, input[pos + 1..])
  {
    var (taken, c, d) := (input[..pos], input[pos], v.ToByte(input[pos]));
    assert input[..pos + 1] == taken + [c] && input[pos..][1..] == input[pos + 1..];
    CharByte(v, d, c);
    assert Indices(v, taken + [c]) == Indices(v, taken) + [d];
    FlattenAppend(Indices(v, taken), d, w);
    StreamIn(Flatten(Indices(v, taken), w), acc, done, pending, w, d);
  }

  lemma PutOctet(v: Variant, taken: Buffer, out: Buffer, acc: nat, done: seq<bit>, pending: seq<bit>)
    requires Taking(v, taken, out, acc, done, pending) && 8 <= |pending|
    ensures Mask(Shr(acc, |pending| - 8), 8) < 0x100
    ensures Taking(v, taken, out + [Mask(Shr(acc, |pending| - 8), 8)], acc, done + pending[..8], pending[8..])
  {
    Pow2Values();
    StreamOut(Flatten(Indices(v, taken), v.EncodedBits()), acc, done, pending, 8);
    GroupsAppend(done, pending[..8], 8);
  }

  lemma {:induction false} WholeLength(s: seq<bit>)
    requires Whole(s, 8)
    ensures |s| % 8 == 0
  {
    if s != [] {
      WholeLength(s[8..]);
    }
  }

  /** Characters taken, octets put out and bits pending balance. */
  lemma Balance(v: Variant, taken: Buffer, out: Buffer, acc: nat, done: seq<bit>, pending: seq<bit>)
    requires Taking(v, taken, out, acc, done, pending)
    ensures |taken| * v.EncodedBits() == 8 * |out| + |pending|
  {
    FlattenLength(Indices(v, taken), v.EncodedBits());
    GroupsLength(done, 8);
    WholeLength(done);
  }

  /** Stopping at a character outside the alphabet, or at the end. */
  lemma Stopped(v: Variant, input: Buffer, pos: nat, out: Buffer, acc: nat, done: seq<bit>, pending: seq<bit>)
    requires pos == Lead(v, input) && input != []
    requires Taking(v, input[..pos], out, acc, done, pending) && |pending| < 8 && |out| <= DecodedLen(v, |input|)
    ensures Decoding(v, input) == if pos < |input| && input[pos] != PAD then InvalidByte else Data(out)
  {
    Balance(v, input[..pos], out, acc, done, pending);
    FlattenOfGroups(done, 8);
    GroupsOfFlatten(Groups(done, 8), pending, 8);
  }

  /** A further octet is due, but the buffer is full. */
  lemma Overflow(v: Variant, input: Buffer, pos: nat, out: Buffer, acc: nat, done: seq<bit>, pending: seq<bit>)
    requires 0 < pos <= Lead(v, input)
    requires Taking(v, input[..pos], out, acc, done, pending) && 8 <= |pending| && |out| == DecodedLen(v, |input|)
    ensures Decoding(v, input) == MaxLengthExceeded
  {
    Balance(v, input[..pos], out, acc, done, pending);
    MulMono(pos, Lead(v, input), v.EncodedBits());
  }

  /** Writes out the oldest eight bits. */
  method WriteOctet(v: Variant, ghost taken: Buffer, writer: Writer, acc: nat, accLen0: nat, ghost done0: seq<bit>,
                    ghost pending0: seq<bit>)
    returns (accLen: nat, ghost done: seq<bit>, ghost pending: seq<bit>)
    requires writer.Valid() && writer.pos < |writer.buf|
    requires Taking(v, taken, writer.Done(), acc, done0, pending0) && 8 <= accLen0 == |pending0|
    modifies writer
    ensures writer.Valid() && |writer.buf| == |old(writer.buf)|
    ensures Taking(v, taken, writer.Done(), acc, done, pending) && accLen == |pending| == accLen0 - 8
  {
    PutOctet(v, taken, writer.Done(), acc, done0, pending0);
    accLen := accLen0 - 8;
    done, pending := done0 + pending0[..8], pending0[8..];
    var ok := writer.WriteData([Mask(Shr(acc, accLen), 8)]);
  }

  method Decode(v: Variant, input: Buffer) returns (r: Decoded)
    ensures r == Decoding(v, input)
  {
    if |input| == 0 {
      return NullInput;
    }
    var w := v.EncodedBits();
    var writer := new Writer(Zeros(DecodedLen(v, |input|)));
    var pos: nat, acc: nat, accLen: nat := 0, 0, 0;
    ghost var done: seq<bit>, pending: seq<bit> := [], [];
    while pos < |input|
      invariant pos <= |input| && Lead(v, input) == pos + Lead(v, input[pos..])
      invariant fresh(writer) && writer.Valid() && |writer.buf| == DecodedLen(v, |input|)
      invariant Taking(v, input[..pos], writer.Done(), acc, done, pending) && accLen == |pending| < 8
    {
      var c := input[pos];
      if c == PAD {
        CharByte(v, 0, c);
        break;
      }
      var d := v.ToByte(c);
      if d == 0xff {
        Stopped(v, input, pos, writer.Done(), acc, done, pending);
        return InvalidByte;
      }
      TakeChar(v, input, pos, writer.Done(), acc, done, pending, w);
      pos := pos + 1;
      pending := pending + NatBits(d, w);
      acc := Push(acc, w, d);
      accLen := accLen + w;
      if accLen >= 8 {
        if writer.GCount() == 0 {
          Overflow(v, input, pos, writer.Done(), acc, done, pending);
          return MaxLengthExceeded;
        }
        accLen, done, pending := WriteOctet(v, input[..pos], writer, acc, accLen, done, pending);
      }
    }
    Stopped(v, input, pos, writer.Done(), acc, done, pending);
    return Data(Resized(writer.buf, writer.Count()));
  }

  // ---------------------------------------------------------------- what the codecs are for

  lemma {:induction false} LeadIs(v: Variant, s: Buffer, k: nat)
    requires k <= |s| && forall i :: 0 <= i < k ==> v.ToByte(s[i]) != 0xff
    requires k < |s| ==> v.ToByte(s[k]) == 0xff
    ensures Lead(v, s) == k
  {
    if k > 0 {
      LeadIs(v, s[1..], k - 1);
    }
  }

  /** The alphabet characters of an encoding, and the octets they stand for. */
  lemma TextLead(v: Variant, b: Buffer)
    requires b != []
    ensures var (t, k, w) := (Text(v, b).value, |Sextets(v, b)|, v.EncodedBits());
      && Lead(v, t) == k && (k < |t| ==> t[k] == PAD)
      && Indices(v, t[..k]) == Sextets(v, b)
  {
    var (t, ns) := (Text(v, b).value, Sextets(v, b));
    forall i | 0 <= i < |ns|
      ensures v.ToByte(t[i]) == ns[i] != 0xff
    {
      CharByte(v, ns[i], t[i]);
      Pow2Values();
    }
    CharByte(v, 0, PAD);
    LeadIs(v, t, |ns|);
  }

  lemma Regrouped(s: seq<bit>, w: nat)
    requires w > 0
    ensures Flatten(Groups(Filled(s, w), w), w) == s + Filled(s, w)[|s|..]
  {
    FilledKeeps(s, w);
    FlattenOfGroups(Filled(s, w), w);
  }

  lemma SextetsBack(v: Variant, b: Buffer)
    ensures Octets(Flatten(Sextets(v, b), v.EncodedBits())) == b
    ensures 8 * |b| <= |Sextets(v, b)| * v.EncodedBits() < 8 * |b| + v.EncodedBits()
  {
    var (s, w) := (Flatten(b, 8), v.EncodedBits());
    Regrouped(s, w);
    FlattenLength(b, 8);
    FlattenLength(Sextets(v, b), w);
    Pow2Values();
    GroupsOfFlatten(b, Filled(s, w)[|s|..], 8);
  }

  lemma Padding64(n: nat, k: nat)
    requires 8 * n <= 6 * k < 8 * n + 6
    ensures (k + Base64.PadLen(n)) % 4 == 0 && Base64.PadLen(n) < 4
  {
    var (q, r) := (n / 3, n % 3);
    assert (n * 8) % 24 == r * 8;
    assert k == 4 * q + (if r == 0 then 0 else r + 1);
  }

  /** The encoding has ceil(8n / w) alphabet characters; Base64 is padded to a multiple of four. */
  lemma TextLength(v: Variant, b: Buffer)
    requires b != []
    ensures var (t, w) := (Text(v, b).value, v.EncodedBits());
      && |Sextets(v, b)| == (8 * |b| + w - 1) / w
      && if v.Base32? then |t| == |Sextets(v, b)| else |t| % 4 == 0 && |t| < |Sextets(v, b)| + 4
  {
    SextetsBack(v, b);
    if v.Base64? {
      Padding64(|b|, |Sextets(v, b)|);
    }
  }

  /** Decoding what was encoded gives it back exactly when the buffer the decoder allocates is large
      enough; otherwise it throws. */
  lemma RoundTrip(v: Variant, b: Buffer)
    requires b != []
    ensures var t := Text(v, b).value;
      Decoding(v, t) == if |b| <= DecodedLen(v, |t|) then Data(b) else MaxLengthExceeded
  {
    TextLead(v, b);
    SextetsBack(v, b);
  }

  lemma EighthFloor(n: nat)
    ensures (n as real / 8.0).Floor == n / 8
  {
    assert n == 8 * (n / 8) + n % 8;
  }

  lemma HalfFloor(n: nat)
    ensures (n as real / 2.0).Floor == n / 2
  {
    assert n == 2 * (n / 2) + n % 2;
  }

  /** While the encoded bits fit a significand no rounding happens: floor(5n/8) for Base32; floor(3n/2),
      twice what is needed, for Base64. */
  lemma DecodedLenExact(v: Variant, size: nat)
    requires 0 < size && size * v.EncodedBits() < 0x100_0000
    ensures DecodedLen(v, size) == if v.Base32? then 5 * size / 8 else 3 * size / 2
  {
    var n := size * v.EncodedBits();
    if v.Base32? {
      Scaled40(size, n as real);
      EighthFloor(n);
    } else {
      Scaled24(size, n as real);
      HalfFloor(3 * size);
    }
  }

  /** Base64's buffer is always large enough. */
  lemma DecodedLen64(size: nat)
    ensures DecodedLen(Base64, size) >= 6 * size / 8
  {
    Scaled24Near((size * 6) as real);
    EighthFloor(size * 6);
  }

  /** Base32's is not: at this size rounding makes it one octet too small. */
  lemma DecodedLenRoundsDown()
    ensures DecodedLen(Base32, 16777221) == 10485762
  {
    Scaled40Low();
  }

  lemma Shorter64(n: nat, t: nat)
    requires t >= (8 * n + 5) / 6
    ensures n <= 6 * t / 8
  {
  }

  /** No Base64 input is too long to be recovered. */
  lemma RoundTrip64(b: Buffer)
    requires b != []
    ensures Decoding(Base64, Text(Base64, b).value) == Data(b)
  {
    var t := Text(Base64, b).value;
    RoundTrip(Base64, b);
    TextLength(Base64, b);
    DecodedLen64(|t|);
    Shorter64(|b|, |t|);
  }

  /** Base32 recovers every input whose encoding has fewer than 2^24 bits. */
  lemma RoundTrip32(b: Buffer)
    requires b != [] && 5 * |Text(Base32, b).value| < 0x100_0000
    ensures Decoding(Base32, Text(Base32, b).value) == Data(b)
  {
    RoundTrip(Base32, b);
    TextLength(Base32, b);
    DecodedLenExact(Base32, |Text(Base32, b).value|);
  }

  /** It does not recover every larger one: the encoding of any 10485763 octets cannot be decoded. */
  lemma RoundTrip32Fails(b: Buffer)
    requires |b| == 10485763
    ensures Decoding(Base32, Text(Base32, b).value) == MaxLengthExceeded
  {
    var t := Text(Base32, b).value;
    assert |t| == 16777221 by {
      TextLength(Base32, b);
    }
    assert DecodedLen(Base32, |t|) == 10485762 by {
      DecodedLenRoundsDown();
    }
    RoundTrip(Base32, b);
  }

  /** Up to the size where rounding starts, decoding fails exactly when a character before the first
      padding character is outside the alphabet. */
  lemma DecodeFails(v: Variant, s: Buffer)
    requires s != [] && |s| * v.EncodedBits() < 0x100_0000
    ensures Decoding(v, s) != MaxLengthExceeded
    ensures Decoding(v, s) == InvalidByte <==>
      exists i :: 0 <= i < |s| && s[i] != PAD && v.ToByte(s[i]) == 0xff && PAD !in s[..i]
  {
    var k := Lead(v, s);
    DecodedLenExact(v, |s|);
    CharByte(v, 0, PAD);
    if k < |s| && s[k] != PAD {
      assert forall j :: 0 <= j < k ==> s[..k][j] != PAD;
      assert PAD !in s[..k];
    }
  }

  /** Otherwise it yields the whole octets of the characters before that. */
  lemma DecodeLength(v: Variant, s: Buffer)
    requires Decoding(v, s).Data?
    ensures |Decoding(v, s).data| == Lead(v, s) * v.EncodedBits() / 8
  {
    var (ns, w) := (Indices(v, s[..Lead(v, s)]), v.EncodedBits());
    FlattenLength(ns, w);
    GroupsLength(Flatten(ns, w), 8);
  }
}
