/** HKDF expansion over a reused scratch buffer, against section 2.3 of RFC 5869. */
module Hkdfs {
  import opened Bytes

  const DIGEST_LEN: nat := 32
  const DEFAULT_CONTEXT_LEN: nat := 8
  const MAX_CONTEXT_LEN: nat := 16

  /** A keyed hash with its limits; only the digest's length is assumed. The largest output fits the 8-bit
      round counter. */
  datatype Hasher = Hasher(extract: (Buffer, Buffer) -> Buffer, mac: (Buffer, Buffer) -> Buffer, minLen: nat,
                           maxLen: nat)
  {
    ghost predicate Correct() {
      && 0 < minLen <= maxLen <= 255 * DIGEST_LEN
      && forall key: Buffer, data: Buffer :: |mac(key, data)| == DIGEST_LEN
    }

    predicate LengthOk(n: nat) {
      minLen <= n <= maxLen
    }
  }

  // ---------------------------------------------------------------- the standard

  /** T(i), the empty string for i = 0. */
  function T(h: Hasher, prk: Buffer, info: Buffer, i: nat): Buffer
    requires i < 0x100
  {
    if i == 0 then [] else h.mac(prk, T(h, prk, info, i - 1) + info + [i])
  }

  /** T(1) | T(2) | ... | T(n) */
  ghost function Blocks(h: Hasher, prk: Buffer, info: Buffer, n: nat): (b: Buffer)
    requires n < 0x100 && h.Correct()
    ensures |b| == n * DIGEST_LEN
  {
    if n == 0 then [] else Blocks(h, prk, info, n - 1) + T(h, prk, info, n)
  }

  /** The first n octets of as many blocks as it takes. */
  ghost function Okm(h: Hasher, prk: Buffer, info: Buffer, n: nat): (k: Buffer)
    requires n <= 255 * DIGEST_LEN && h.Correct()
    ensures |k| == n
  {
    Blocks(h, prk, info, (n + DIGEST_LEN - 1) / DIGEST_LEN)[..n]
  }

  // ---------------------------------------------------------------- the context

  function Truncated(info: Buffer): Buffer {
    if |info| <= MAX_CONTEXT_LEN then info else info[..MAX_CONTEXT_LEN]
  }

  class KDFContext {
    var ctx: Buffer

    constructor ()
      ensures ctx == [0, 0, 0, 0, 0, 0, 0, 0]
    {
      ctx := Zeros(DEFAULT_CONTEXT_LEN);
    }

    method Set(info: Buffer)
      modifies this
      ensures ctx == Truncated(info) && |ctx| <= 16 && ctx <= info && (|ctx| < 16 ==> ctx == info)
    {
      if ctx != [] {
        ctx := [];
      }
      if |info| <= MAX_CONTEXT_LEN {
        ctx := info + ctx;
        ctx := Resized(ctx, |info|);
      } else {
        ctx := info[..MAX_CONTEXT_LEN] + ctx;
      }
    }
  }

  // ---------------------------------------------------------------- the implementation

  lemma KeptContext(b: Buffer, old_: Buffer, previous: Buffer, ctx: Buffer)
    requires |b| == |old_| == DIGEST_LEN + |ctx| + 1 && |previous| == DIGEST_LEN && b[..DIGEST_LEN] == previous
    requires b[DIGEST_LEN..] == old_[DIGEST_LEN..] && old_[DIGEST_LEN..DIGEST_LEN + |ctx|] == ctx
    ensures b[..DIGEST_LEN + |ctx|] == previous + ctx
  {
    assert b[DIGEST_LEN..][..|ctx|] == ctx by {
      assert old_[DIGEST_LEN..][..|ctx|] == ctx;
    }
    assert b[..DIGEST_LEN + |ctx|] == b[..DIGEST_LEN] + b[DIGEST_LEN..][..|ctx|];
  }

  /** What is hashed in a round: the scratch buffer, without the room for a previous digest in the first. */
  method FillScratch(scratch: Writer, round: nat, previous: Buffer, ctx: Buffer) returns (input: Buffer)
    requires scratch.Valid() && scratch.pos == 0 && round < 255 && |scratch.buf| == DIGEST_LEN + |ctx| + 1
    requires round > 0 ==> |previous| == DIGEST_LEN && scratch.buf[DIGEST_LEN..DIGEST_LEN + |ctx|] == ctx
    modifies scratch
    ensures scratch.Valid() && scratch.pos == 0 && |scratch.buf| == |old(scratch.buf)|
    ensures scratch.buf[DIGEST_LEN..DIGEST_LEN + |ctx|] == ctx
    ensures input == (if round == 0 then [] else previous) + ctx + [round + 1]
  {
    var ok;
    if round == 0 {
      ok := scratch.SkipBytes(DIGEST_LEN);
      ghost var room := scratch.Done();
      ok := scratch.WriteData(ctx);
      ok := scratch.WriteData([round + 1]);
      assert scratch.buf == scratch.Done() == room + ctx + [round + 1];
      input := scratch.buf[DIGEST_LEN..];
    } else {
      ok := scratch.WriteData(previous);
      assert scratch.Done() == previous;
      KeptContext(scratch.buf, old(scratch.buf), previous, ctx);
      ok := scratch.SkipBytes(|ctx|);
      ok := scratch.WriteData([round + 1]);
      assert scratch.buf == scratch.Done() == previous + ctx + [round + 1];
      input := scratch.buf;
    }
    scratch.Reset();
  }

  method Digests(h: Hasher, prk: Buffer, rounds: nat, ctx: Buffer) returns (digests: seq<Buffer>)
    requires h.Correct() && rounds <= 255
    ensures |digests| == rounds && forall i :: 0 <= i < rounds ==> digests[i] == T(h, prk, ctx, i + 1)
  {
    digests := [];
    var scratch := new Writer(Zeros(DIGEST_LEN + |ctx| + 1));
    for round := 0 to rounds
      invariant |digests| == round && forall i :: 0 <= i < round ==> digests[i] == T(h, prk, ctx, i + 1)
      invariant scratch.Valid() && scratch.pos == 0 && |scratch.buf| == DIGEST_LEN + |ctx| + 1
      invariant round > 0 ==> scratch.buf[DIGEST_LEN..DIGEST_LEN + |ctx|] == ctx
    {
      var input := FillScratch(scratch, round, if round == 0 then [] else digests[round - 1], ctx);
      digests := digests + [h.mac(prk, input)];
    }
  }

  function Min(a: nat, b: nat): nat {
    if a < b then a else b
  }

  lemma NextBlock(h: Hasher, prk: Buffer, ctx: Buffer, n: nat, k: nat)
    requires h.Correct() && n < 255 && k <= DIGEST_LEN
    ensures var m := n * DIGEST_LEN;
      && Blocks(h, prk, ctx, n)[..m] == Blocks(h, prk, ctx, n)
      && Blocks(h, prk, ctx, n + 1)[..m + k] == Blocks(h, prk, ctx, n) + T(h, prk, ctx, n + 1)[..k]
  {
  }

  method CopyTo(a: array<byte>, at: nat, d: Buffer)
    requires at + |d| <= a.Length
    modifies a
    ensures a[..at + |d|] == old(a[..at]) + d && a[at + |d|..] == old(a[..])[at + |d|..]
  {
    for i := 0 to |d|
      invariant a[..at] == old(a[..at]) && a[at..at + i] == d[..i] && a[at + i..] == old(a[..])[at + i..]
    {
      a[at + i] := d[i];
      assert a[at..at + i + 1] == a[at..at + i] + [d[i]];
    }
    assert a[..at + |d|] == a[..at] + a[at..at + |d|];
  }

  /** Copies whole digests to the output, and cuts the last one if it is too long for what remains: for as many
      rounds as it takes, this is the standard's key. */
  method ExpandKeyMaterial(keyOut: array<byte>, h: Hasher, prk: Buffer, rounds: nat, ctx: Buffer)
    requires h.Correct() && rounds <= 255 && rounds * DIGEST_LEN < keyOut.Length + DIGEST_LEN
    modifies keyOut
    ensures var m := Min(rounds * DIGEST_LEN, keyOut.Length);
      keyOut[..m] == Blocks(h, prk, ctx, rounds)[..m] && keyOut[m..] == old(keyOut[..])[m..]
  {
    var digests := Digests(h, prk, rounds, ctx);
    var written, rem := 0, keyOut.Length;
    var isShort := keyOut.Length < rounds * DIGEST_LEN;
    for round := 0 to rounds
      invariant written == round * DIGEST_LEN && rem == keyOut.Length - written
      invariant var m := Min(written, keyOut.Length);
        keyOut[..m] == Blocks(h, prk, ctx, round)[..m] && keyOut[m..] == old(keyOut[..])[m..]
    {
      NextBlock(h, prk, ctx, round, Min(rem, DIGEST_LEN));
      SameTail(keyOut[..], old(keyOut[..]), written, written + Min(rem, DIGEST_LEN));
      if isShort && round == rounds - 1 {
        CopyTo(keyOut, written, digests[round][..rem]);
      } else {
        CopyTo(keyOut, written, digests[round]);
      }
      written := written + DIGEST_LEN;
      rem := rem - DIGEST_LEN;
    }
  }

  /** The output: whole blocks, and what the buffer held before where another one would not fit. */
  ghost function Derived(out: Buffer, keyIn: Buffer, salt: Buffer, ctx: Buffer, h: Hasher): (r: Buffer)
    requires h.Correct() && h.LengthOk(|out|)
    ensures |r| == |out|
  {
    var n := |out| / DIGEST_LEN;
    Blocks(h, h.extract(salt, keyIn), ctx, n) + out[n * DIGEST_LEN..]
  }

  /** The number of rounds is the length divided by the digest's in integers; rounding up comes too late. */
  method Derive(keyOut: array<byte>, keyIn: Buffer, salt: Buffer, ctx: Buffer, h: Hasher) returns (ok: bool)
    requires h.Correct()
    modifies keyOut
    ensures ok <==> h.minLen <= |keyIn| <= h.maxLen && h.minLen <= keyOut.Length <= h.maxLen
    ensures keyOut[..] == if ok then Derived(old(keyOut[..]), keyIn, salt, ctx, h) else old(keyOut[..])
  {
    ok := h.LengthOk(|keyIn|) && h.LengthOk(keyOut.Length);
    if ok {
      var prk := h.extract(salt, keyIn);
      var rounds := keyOut.Length / DIGEST_LEN % 0x100;
      assert rounds == keyOut.Length / DIGEST_LEN;
      ExpandKeyMaterial(keyOut, h, prk, rounds, ctx);
      assert Blocks(h, prk, ctx, rounds)[..rounds * DIGEST_LEN] == Blocks(h, prk, ctx, rounds);
      assert keyOut[..] == keyOut[..rounds * DIGEST_LEN] + keyOut[rounds * DIGEST_LEN..];
    }
  }

  // ---------------------------------------------------------------- refinement

  /** The derived key is the standard's, whatever the output buffer held before, exactly when its length is a
      multiple of the digest's. */
  lemma DerivesExactly(n: nat, keyIn: Buffer, salt: Buffer, ctx: Buffer, h: Hasher)
    requires h.Correct() && h.LengthOk(n)
    ensures (forall out: Buffer | |out| == n ::
               Derived(out, keyIn, salt, ctx, h) == Okm(h, h.extract(salt, keyIn), ctx, n))
      <==> n % DIGEST_LEN == 0
  {
    var okm := Okm(h, h.extract(salt, keyIn), ctx, n);
    if n % DIGEST_LEN == 0 {
      forall out: Buffer | |out| == n
        ensures Derived(out, keyIn, salt, ctx, h) == okm
      {
        assert (n + DIGEST_LEN - 1) / DIGEST_LEN == n / DIGEST_LEN;
        assert out[n / DIGEST_LEN * DIGEST_LEN..] == [];
      }
    } else {
      var last: int := okm[n - 1];
      var out := Zeros(n)[n - 1 := (last + 1) % 0x100];
      assert Derived(out, keyIn, salt, ctx, h)[n - 1] == out[n - 1] != okm[n - 1];
    }
  }

  /** A shorter block count is a prefix of a longer one. */
  lemma {:induction false} BlocksPrefix(h: Hasher, prk: Buffer, info: Buffer, m: nat, n: nat)
    requires m <= n < 0x100 && h.Correct()
    ensures Blocks(h, prk, info, m) <= Blocks(h, prk, info, n)
  {
    if m < n {
      BlocksPrefix(h, prk, info, m, n - 1);
    }
  }

  /** For every length, what is written is a prefix of the standard's key, and misses fewer bytes than one
      digest; the context is the standard's info up to 16 bytes. */
  lemma DerivesPrefix(out: Buffer, keyIn: Buffer, salt: Buffer, info: Buffer, h: Hasher)
    requires h.Correct() && h.LengthOk(|out|) && |info| <= MAX_CONTEXT_LEN
    ensures var m := |out| / DIGEST_LEN * DIGEST_LEN;
      var r := Derived(out, keyIn, salt, Truncated(info), h);
      |out| - m < DIGEST_LEN && r[..m] == Okm(h, h.extract(salt, keyIn), info, |out|)[..m] && r[m..] == out[m..]
  {
    var (prk, m, n) := (h.extract(salt, keyIn), |out| / DIGEST_LEN, (|out| + DIGEST_LEN - 1) / DIGEST_LEN);
    BlocksPrefix(h, prk, info, m, n);
    assert Blocks(h, prk, info, n)[..m * DIGEST_LEN] == Blocks(h, prk, info, m);
  }
}
