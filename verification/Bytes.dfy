/** Byte buffers, fixed-width integers and the bounds-checked cursors over a buffer. */
module Bytes {
  datatype Option<+T> = None | Some(value: T)

  type byte = b: int | 0 <= b < 0x100
  type u16 = n: int | 0 <= n < 0x1_0000
  type u32 = n: int | 0 <= n < 0x1_0000_0000
  type u64 = n: int | 0 <= n < 0x1_0000_0000_0000_0000
  type Buffer = seq<byte>

  // ---------------------------------------------------------------- fixed-width integers

  function FromBE16(b: Buffer): u16
    requires |b| == 2
  {
    var hi: int := b[0];
    hi * 0x100 + b[1]
  }

  function BE16(n: u16): (b: Buffer)
    ensures |b| == 2 && FromBE16(b) == n
  {
    [n / 0x100, n % 0x100]
  }

  lemma Digits(n: u32)
    ensures n
      == n % 0x100 + 0x100 * (n / 0x100 % 0x100) + 0x1_0000 * (n / 0x1_0000 % 0x100) + 0x100_0000 * (n / 0x100_0000)
  {
  }

  function FromBE32(b: Buffer): u32
    requires |b| == 4
  {
    var (b0: int, b1: int, b2: int, b3: int) := (b[0], b[1], b[2], b[3]);
    b3 + 0x100 * b2 + 0x1_0000 * b1 + 0x100_0000 * b0
  }

  function BE32(n: u32): (b: Buffer)
    ensures |b| == 4 && FromBE32(b) == n
  {
    Digits(n);
    [n / 0x100_0000, n / 0x1_0000 % 0x100, n / 0x100 % 0x100, n % 0x100]
  }

  function FromBE64(b: Buffer): u64
    requires |b| == 8
  {
    var (b0: int, b1: int, b2: int, b3: int) := (b[0], b[1], b[2], b[3]);
    var (b4: int, b5: int, b6: int, b7: int) := (b[4], b[5], b[6], b[7]);
    b7 + 0x100 * b6 + 0x1_0000 * b5 + 0x100_0000 * b4
    + 0x1_0000_0000 * (b3 + 0x100 * b2 + 0x1_0000 * b1 + 0x100_0000 * b0)
  }

  function BE64(n: u64): (b: Buffer)
    ensures |b| == 8 && FromBE64(b) == n
  {
    var (lo, hi) := (n % 0x1_0000_0000, n / 0x1_0000_0000);
    Digits(lo);
    Digits(hi);
    [hi / 0x100_0000, hi / 0x1_0000 % 0x100, hi / 0x100 % 0x100, hi % 0x100,
     lo / 0x100_0000, lo / 0x1_0000 % 0x100, lo / 0x100 % 0x100, lo % 0x100]
  }

  function FromNative16(b: Buffer): u16
    requires |b| == 2
  {
    var hi: int := b[1];
    hi * 0x100 + b[0]
  }

  /** Fields the program copies in the order its own machine stores them are little-endian here. */
  function Native16(n: u16): (b: Buffer)
    ensures |b| == 2 && FromNative16(b) == n
  {
    [n % 0x100, n / 0x100]
  }

  lemma NativeBytes16(b: Buffer)
    requires |b| == 2
    ensures Native16(FromNative16(b)) == b
  {
  }

  function FromNative64(b: Buffer): u64
    requires |b| == 8
  {
    var (b0: int, b1: int, b2: int, b3: int) := (b[0], b[1], b[2], b[3]);
    var (b4: int, b5: int, b6: int, b7: int) := (b[4], b[5], b[6], b[7]);
    b0 + 0x100 * b1 + 0x1_0000 * b2 + 0x100_0000 * b3
    + 0x1_0000_0000 * (b4 + 0x100 * b5 + 0x1_0000 * b6 + 0x100_0000 * b7)
  }

  function Native64(n: u64): (b: Buffer)
    ensures |b| == 8 && FromNative64(b) == n
  {
    var (lo, hi) := (n % 0x1_0000_0000, n / 0x1_0000_0000);
    Digits(lo);
    Digits(hi);
    [lo % 0x100, lo / 0x100 % 0x100, lo / 0x1_0000 % 0x100, lo / 0x100_0000,
     hi % 0x100, hi / 0x100 % 0x100, hi / 0x1_0000 % 0x100, hi / 0x100_0000]
  }

  lemma LowByte(b: byte, m: nat)
    ensures (b as int + 0x100 * m) % 0x100 == b && (b as int + 0x100 * m) / 0x100 == m
  {
  }

  lemma Shifts(n: nat)
    ensures n / 0x1_0000 == n / 0x100 / 0x100 && n / 0x100_0000 == n / 0x100 / 0x100 / 0x100
  {
  }

  lemma Word(b0: byte, b1: byte, b2: byte, b3: byte)
    ensures var n := b0 as int + 0x100 * b1 + 0x1_0000 * b2 + 0x100_0000 * b3;
      n % 0x100 == b0 && n / 0x100 % 0x100 == b1 && n / 0x1_0000 % 0x100 == b2 && n / 0x100_0000 == b3
  {
    var m2 := b2 as int + 0x100 * b3;
    var m1 := b1 as int + 0x100 * m2;
    var n := b0 as int + 0x100 * m1;
    LowByte(b2, b3);
    LowByte(b1, m2);
    LowByte(b0, m1);
    Shifts(n);
  }

  lemma TwoWords(lo: u32, hi: nat)
    ensures (lo as int + 0x1_0000_0000 * hi) % 0x1_0000_0000 == lo
    ensures (lo as int + 0x1_0000_0000 * hi) / 0x1_0000_0000 == hi
  {
  }

  lemma NativeBytes64(b: Buffer)
    requires |b| == 8
    ensures Native64(FromNative64(b)) == b
  {
    var (b0: int, b1: int, b2: int, b3: int) := (b[0], b[1], b[2], b[3]);
    var (b4: int, b5: int, b6: int, b7: int) := (b[4], b[5], b[6], b[7]);
    var lo := b0 + 0x100 * b1 + 0x1_0000 * b2 + 0x100_0000 * b3;
    var hi := b4 + 0x100 * b5 + 0x1_0000 * b6 + 0x100_0000 * b7;
    Word(b[0], b[1], b[2], b[3]);
    Word(b[4], b[5], b[6], b[7]);
    TwoWords(lo, hi);
    assert FromNative64(b) == lo + 0x1_0000_0000 * hi;
  }

  /** The number a buffer denotes with its most significant byte first. */
  ghost function BigEndian(b: Buffer): nat {
    if b == [] then 0 else 256 * BigEndian(b[..|b| - 1]) + b[|b| - 1]
  }

  /** And with its least significant byte first. */
  ghost function LittleEndian(b: Buffer): nat {
    if b == [] then 0 else b[0] + 256 * LittleEndian(b[1..])
  }

  lemma BigNext(b: Buffer, n: nat)
    requires n < |b|
    ensures BigEndian(b[..n + 1]) == 256 * BigEndian(b[..n]) + b[n]
  {
    assert b[..n + 1][..n] == b[..n];
  }

  lemma LittleNext(b: Buffer, n: nat)
    requires n < |b|
    ensures LittleEndian(b[n..]) == b[n] + 256 * LittleEndian(b[n + 1..])
  {
    assert b[n..][1..] == b[n + 1..];
  }

  lemma Big2(b: Buffer)
    requires |b| >= 2
    ensures BigEndian(b[..2]) == 256 * b[0] as nat + b[1]
  {
    BigNext(b, 0);
    BigNext(b, 1);
  }

  lemma Big4(b: Buffer)
    requires |b| >= 4
    ensures BigEndian(b[..4]) == FromBE32(b[..4]) as nat
  {
    Big2(b);
    BigNext(b, 2);
    BigNext(b, 3);
  }

  /** The network's integers have their most significant byte first, the program's own their least. */
  lemma ByteOrder16(b: Buffer)
    requires |b| == 2
    ensures FromBE16(b) as nat == BigEndian(b) && FromNative16(b) as nat == LittleEndian(b)
  {
    Big2(b);
    assert b[..2] == b == b[0..];
    LittleNext(b, 0);
    LittleNext(b, 1);
  }

  lemma ByteOrder32(b: Buffer)
    requires |b| == 4
    ensures FromBE32(b) as nat == BigEndian(b)
  {
    Big4(b);
    assert b[..4] == b;
  }

  lemma ByteOrder64(b: Buffer)
    requires |b| == 8
    ensures FromBE64(b) as nat == BigEndian(b)
  {
    Big4(b);
    BigNext(b, 4);
    BigNext(b, 5);
    BigNext(b, 6);
    BigNext(b, 7);
    assert b[..8] == b;
  }

  lemma ByteOrderNative(b: Buffer)
    requires |b| == 8
    ensures FromNative64(b) as nat == LittleEndian(b)
  {
    assert b[0..] == b && b[8..] == [];
    LittleNext(b, 0);
    LittleNext(b, 1);
    LittleNext(b, 2);
    LittleNext(b, 3);
    LittleNext(b, 4);
    LittleNext(b, 5);
    LittleNext(b, 6);
    LittleNext(b, 7);
  }

  // ---------------------------------------------------------------- resizable buffers

  function Zeros(n: nat): (b: Buffer)
    ensures |b| == n
  {
    seq(n, _ => 0)
  }

  /** A container's resize: keep the front, cut the tail or fill it with zeros. */
  function Resized(b: Buffer, n: nat): (r: Buffer)
    ensures |r| == n
    ensures forall i :: 0 <= i < n && i < |b| ==> r[i] == b[i]
  {
    if n <= |b| then b[..n] else b + Zeros(n - |b|)
  }

  lemma Assoc(a: Buffer, b: Buffer, c: Buffer)
    ensures a + b + c == a + (b + c)
  {
  }

  /** Cutting a piece off a suffix. */
  lemma Slices(b: Buffer, i: nat, n: nat)
    requires i + n <= |b|
    ensures b[i..][..n] == b[i..i + n] && b[i..][n..] == b[i + n..]
  {
  }

  lemma ToTheEnd(f: Buffer, i: nat, n: nat)
    requires i <= n == |f|
    ensures f[i..n] == f[i..]
  {
  }

  lemma PartOf(f: Buffer, i: nat, n: nat, k: nat)
    requires k <= n && i + n <= |f|
    ensures f[i..i + n][k..] == f[i + k..i + n]
  {
  }

  lemma Inner(b: Buffer, p: nat, i: nat, n: nat)
    requires p <= i <= n <= |b|
    ensures b[p..][i - p..n - p] == b[i..n]
  {
    var (x, y) := (b[p..][i - p..n - p], b[i..n]);
    assert |x| == |y| && forall k :: 0 <= k < |x| ==> x[k] == y[k];
  }

  lemma SamePart(f: Buffer, g: Buffer, p: nat, i: nat, n: nat)
    requires p <= i <= n <= |f| == |g| && f[p..] == g[p..]
    ensures f[i..n] == g[i..n]
  {
    Inner(f, p, i, n);
    Inner(g, p, i, n);
  }

  /** What agrees from one position on agrees from any later one. */
  lemma SameTail(a: Buffer, b: Buffer, p: nat, q: nat)
    requires p <= q <= |a| == |b| && a[p..] == b[p..]
    ensures a[q..] == b[q..]
  {
    assert a[q..] == a[p..][q - p..] && b[q..] == b[p..][q - p..];
  }

  // ---------------------------------------------------------------- cursors

  /** A read position over a buffer that does not change meanwhile. */
  class Reader {
    const buf: Buffer
    var pos: nat

    ghost predicate Valid()
      reads this
    {
      pos <= |buf|
    }

    /** What is still to be read. */
    ghost function Rest(): (r: Buffer)
      requires Valid()
      reads this
    {
      buf[pos..]
    }

    constructor (b: Buffer)
      ensures Valid() && buf == b && pos == 0 && Rest() == b
    {
      buf, pos := b, 0;
    }

    /** Bytes processed so far. */
    function Count(): nat
      reads this
    {
      pos
    }

    /** Bytes remaining. */
    function GCount(): (n: nat)
      requires Valid()
      reads this
      ensures n == |Rest()|
    {
      |buf| - pos
    }

    method SkipBytes(n: nat) returns (ok: bool)
      requires Valid()
      modifies this
      ensures Valid() && ok == (n <= |old(Rest())|)
      ensures ok ==> pos == old(pos) + n && Rest() == old(Rest())[n..]
      ensures !ok ==> pos == old(pos)
    {
      ok := pos + n <= |buf|;
      if ok {
        pos := pos + n;
      }
    }

    method SkipBack(n: nat) returns (ok: bool)
      requires Valid()
      modifies this
      ensures Valid() && ok == (n <= old(pos))
      ensures ok ==> pos == old(pos) - n
      ensures !ok ==> pos == old(pos)
    {
      ok := n <= pos;
      if ok {
        pos := pos - n;
      }
    }

    method ReadData(n: nat) returns (ok: bool, d: Buffer)
      requires Valid()
      modifies this
      ensures Valid() && ok == (n <= |old(Rest())|)
      ensures ok ==> pos == old(pos) + n && d == old(Rest())[..n] && Rest() == old(Rest())[n..]
      ensures !ok ==> pos == old(pos) && d == []
    {
      ok, d := pos + n <= |buf|, [];
      if ok {
        d := buf[pos..pos + n];
        pos := pos + n;
      }
    }

    method ReadByte() returns (ok: bool, b: byte)
      requires Valid()
      modifies this
      ensures Valid() && ok == (1 <= |old(Rest())|)
      ensures ok ==> pos == old(pos) + 1 && b == old(Rest())[0] && Rest() == old(Rest())[1..]
      ensures !ok ==> pos == old(pos)
    {
      var d;
      ok, d := ReadData(1);
      b := if ok then d[0] else 0;
    }
  }

  /** A write position over a buffer whose size is fixed while it is being filled. */
  class Writer {
    var buf: Buffer
    var pos: nat

    ghost predicate Valid()
      reads this
    {
      pos <= |buf|
    }

    /** What has been written or skipped so far. */
    ghost function Done(): (d: Buffer)
      requires Valid()
      reads this
    {
      buf[..pos]
    }

    constructor (b: Buffer)
      ensures Valid() && buf == b && pos == 0 && Done() == []
    {
      buf, pos := b, 0;
    }

    function Count(): nat
      reads this
    {
      pos
    }

    function GCount(): nat
      requires Valid()
      reads this
    {
      |buf| - pos
    }

    method Reset()
      modifies this`pos
      ensures Valid() && pos == 0
    {
      pos := 0;
    }

    method SkipBytes(n: nat) returns (ok: bool)
      requires Valid()
      modifies this`pos
      ensures Valid() && ok == (old(pos) + n <= |buf|)
      ensures pos == if ok then old(pos) + n else old(pos)
    {
      ok := pos + n <= |buf|;
      if ok {
        pos := pos + n;
      }
    }

    method WriteData(d: Buffer) returns (ok: bool)
      requires Valid()
      modifies this
      ensures Valid() && |buf| == |old(buf)| && ok == (old(pos) + |d| <= |buf|)
      ensures ok ==> pos == old(pos) + |d| && Done() == old(Done()) + d && buf[pos..] == old(buf)[pos..]
      ensures !ok ==> pos == old(pos) && buf == old(buf)
    {
      ok := pos + |d| <= |buf|;
      if ok {
        buf := buf[..pos] + d + buf[pos + |d|..];
        pos := pos + |d|;
      }
    }
  }
}
