/** Bit strings, most significant bit first, and a wrapping 32-bit accumulator seen as one. */
module Bits {
  type bit = b: int | 0 <= b < 2

  const WORD: nat := 0x1_0000_0000

  function Pow2(n: nat): (p: nat)
    ensures p >= 1
  {
    if n == 0 then 1 else 2 * Pow2(n - 1)
  }

  /** The number a bit string denotes. */
  function Value(s: seq<bit>): (v: nat)
    ensures v < Pow2(|s|)
  {
    if s == [] then 0 else 2 * Value(s[..|s| - 1]) + s[|s| - 1]
  }

  /** The lowest k bits of a number. */
  function NatBits(n: nat, k: nat): (s: seq<bit>)
    ensures |s| == k
  {
    if k == 0 then [] else NatBits(n / 2, k - 1) + [n % 2]
  }

  lemma {:induction false} BitsOfValue(s: seq<bit>)
    ensures NatBits(Value(s), |s|) == s
  {
    if s != [] {
      BitsOfValue(s[..|s| - 1]);
    }
  }

  lemma {:induction false} ValueOfSmall(n: nat, k: nat)
    requires n < Pow2(k)
    ensures Value(NatBits(n, k)) == n
  {
    if k > 0 {
      var t := NatBits(n / 2, k - 1);
      ValueOfSmall(n / 2, k - 1);
      assert NatBits(n, k) == t + [n % 2] && (t + [n % 2])[..k - 1] == t;
    }
  }

  lemma Pow2Values()
    ensures Pow2(5) == 32 && Pow2(6) == 64 && Pow2(8) == 0x100 && Pow2(16) == 0x1_0000 && Pow2(32) == WORD
  {
    assert Pow2(4) == 16;
    assert Pow2(8) == 0x100;
    assert Pow2(12) == 0x1000;
    assert Pow2(16) == 0x1_0000;
    assert Pow2(20) == 0x10_0000;
    assert Pow2(24) == 0x100_0000;
    assert Pow2(28) == 0x1000_0000;
  }

  /** Exclusive or of the lowest k bits. */
  function Xor(a: nat, b: nat, k: nat): (r: nat)
    ensures r < Pow2(k)
  {
    if k == 0 then 0 else 2 * Xor(a / 2, b / 2, k - 1) + (a + b) % 2
  }

  lemma Parity(h: nat, a: nat, b: nat)
    ensures var x := 2 * h + (a + b) % 2;
      x / 2 == h && (x + b) % 2 == a % 2 && a == 2 * (a / 2) + a % 2
  {
  }

  lemma {:induction false} XorTwice(a: nat, b: nat, k: nat)
    requires a < Pow2(k)
    ensures Xor(Xor(a, b, k), b, k) == a
  {
    if k > 0 {
      XorTwice(a / 2, b / 2, k - 1);
      Parity(Xor(a / 2, b / 2, k - 1), a, b);
    }
  }

  /** A bit of it is set exactly where the two differ. */
  lemma {:induction false} XorBits(a: nat, b: nat, k: nat, j: nat)
    requires j < k
    ensures NatBits(Xor(a, b, k), k)[j] == if NatBits(a, k)[j] == NatBits(b, k)[j] then 0 else 1
  {
    var h := Xor(a / 2, b / 2, k - 1);
    Parity(h, a, b);
    assert NatBits(Xor(a, b, k), k) == NatBits(h, k - 1) + [(a + b) % 2];
    if j < k - 1 {
      XorBits(a / 2, b / 2, k - 1, j);
    }
  }

  // ---------------------------------------------------------------- remainders

  lemma MulMono(a: int, b: int, m: nat)
    ensures a <= b ==> a * m <= b * m
  {
    if a <= b {
      assert (b - a) * m >= 0;
    }
  }

  lemma ModUnique(x: int, m: nat, q: int, r: int)
    requires m > 0 && x == q * m + r && 0 <= r < m
    ensures x % m == r && x / m == q
  {
    var (q', r') := (x / m, x % m);
    assert x == q' * m + r';
    assert (q - q') * m == r' - r;
    MulMono(1, q - q', m);
    MulMono(q - q', -1, m);
  }

  lemma Doubled(v: int, p: int)
    ensures 2 * (v * p) == v * (2 * p)
  {
  }

  lemma ModHalf(y: nat, p: nat)
    requires p > 0
    ensures y % (2 * p) == 2 * ((y / 2) % p) + y % 2
  {
    var (h, l) := (y / 2, y % 2);
    var (q, r) := (h / p, h % p);
    assert h == q * p + r;
    Doubled(q, p);
    ModUnique(y, 2 * p, q, 2 * r + l);
  }

  // ---------------------------------------------------------------- the accumulator

  function Doublings(acc: nat, k: nat): nat {
    if k == 0 then acc else 2 * Doublings(acc, k - 1)
  }

  /** Left shift of a uint32. */
  function Shl(acc: nat, k: nat): (r: nat)
    ensures r < WORD
  {
    Doublings(acc, k) % WORD
  }

  /** Left shift, then addition, of a uint32. */
  function Push(acc: nat, k: nat, x: nat): nat {
    (Shl(acc, k) + x) % WORD
  }

  /** Right shift. */
  function Shr(acc: nat, k: nat): nat {
    if k == 0 then acc else Shr(acc / 2, k - 1)
  }

  /** The bits of a number under a mask with the lowest k bits set. */
  function Mask(x: nat, k: nat): (r: nat)
    ensures r < Pow2(k)
  {
    if k == 0 then 0 else 2 * Mask(x / 2, k - 1) + x % 2
  }

  lemma {:induction false} ValueOfBits(x: nat, k: nat)
    ensures Value(NatBits(x, k)) == Mask(x, k)
  {
    if k > 0 {
      var t := NatBits(x / 2, k - 1);
      ValueOfBits(x / 2, k - 1);
      assert NatBits(x, k) == t + [x % 2] && (t + [x % 2])[..k - 1] == t;
    }
  }

  /** The lowest |p| bits of the accumulator are the pending bits p; what is above them is stale. */
  ghost predicate Holds(acc: nat, p: seq<bit>) {
    NatBits(acc, |p|) == p
  }

  /** Wrapping at 32 bits leaves the lowest 32 bits alone. */
  lemma {:induction false} WrapKeepsLow(y: nat, j: nat, m: nat)
    requires m <= j
    ensures NatBits(y % Pow2(j), m) == NatBits(y, m)
  {
    if m > 0 {
      var y' := y % Pow2(j);
      assert y' / 2 == (y / 2) % Pow2(j - 1) && y' % 2 == y % 2 by {
        ModHalf(y, Pow2(j - 1));
      }
      WrapKeepsLow(y / 2, j - 1, m - 1);
    }
  }

  lemma {:induction false} DoublingsBits(acc: nat, n: nat, w: nat, x: nat)
    requires x < Pow2(w)
    ensures NatBits(Doublings(acc, w) + x, n + w) == NatBits(acc, n) + NatBits(x, w)
  {
    if w > 0 {
      var y := Doublings(acc, w) + x;
      assert y / 2 == Doublings(acc, w - 1) + x / 2 && y % 2 == x % 2;
      DoublingsBits(acc, n, w - 1, x / 2);
    } else {
      assert NatBits(acc, n) + [] == NatBits(acc, n);
    }
  }

  lemma WordSum(y: nat, x: nat)
    ensures (y % WORD + x) % WORD == (y + x) % WORD
  {
  }

  lemma WrapWord(y: nat, m: nat)
    requires m <= 32
    ensures NatBits(y % WORD, m) == NatBits(y, m)
  {
    Pow2Values();
    WrapKeepsLow(y, 32, m);
  }

  /** Shifting w more bits in appends them to the pending bits, whatever falls off the top of the word. */
  lemma ShiftIn(acc: nat, p: seq<bit>, w: nat, x: nat)
    requires Holds(acc, p) && |p| + w <= 32 && x < Pow2(w)
    ensures Holds(Push(acc, w, x), p + NatBits(x, w))
  {
    WordSum(Doublings(acc, w), x);
    WrapWord(Doublings(acc, w) + x, |p| + w);
    DoublingsBits(acc, |p|, w, x);
  }

  lemma HeldValue(acc: nat, p: seq<bit>)
    requires Holds(acc, p)
    ensures Mask(acc, |p|) == Value(p)
  {
    ValueOfBits(acc, |p|);
  }

  lemma PushZero(acc: nat, k: nat)
    ensures Push(acc, k, 0) == Shl(acc, k)
  {
  }

  /** Shifting up by k appends k zeros. */
  lemma ShiftUp(acc: nat, p: seq<bit>, k: nat)
    requires Holds(acc, p) && |p| + k <= 32
    ensures Mask(Shl(acc, k), |p| + k) == Value(p + NatBits(0, k))
  {
    PushZero(acc, k);
    ShiftIn(acc, p, k, 0);
    var q := p + NatBits(0, k);
    assert |q| == |p| + k;
    HeldValue(Push(acc, k, 0), q);
  }

  lemma {:induction false} ShrBits(acc: nat, k: nat, w: nat)
    ensures NatBits(Shr(acc, k), w) == NatBits(acc, k + w)[..w]
    ensures NatBits(acc, k) == NatBits(acc, k + w)[w..]
  {
    if k > 0 {
      ShrBits(acc / 2, k - 1, w);
      var s := NatBits(acc / 2, k - 1 + w);
      assert NatBits(acc, k + w) == s + [acc % 2];
      assert (s + [acc % 2])[w..] == s[w..] + [acc % 2];
    }
  }

  /** Shifting down and masking yields the first w pending bits; the others stay pending. */
  lemma ShiftOut(acc: nat, p: seq<bit>, w: nat)
    requires Holds(acc, p) && w <= |p|
    ensures Mask(Shr(acc, |p| - w), w) == Value(p[..w])
    ensures Holds(acc, p[w..])
  {
    ShrBits(acc, |p| - w, w);
    HeldValue(Shr(acc, |p| - w), p[..w]);
  }

  /** A bit string on its way through the accumulator: the part already shifted out, then the pending part. */
  ghost predicate Stream(s: seq<bit>, acc: nat, done: seq<bit>, pending: seq<bit>) {
    s == done + pending && Holds(acc, pending)
  }

  lemma StreamIn(s: seq<bit>, acc: nat, done: seq<bit>, pending: seq<bit>, w: nat, x: nat)
    requires Stream(s, acc, done, pending) && |pending| + w <= 32 && x < Pow2(w)
    ensures Stream(s + NatBits(x, w), Push(acc, w, x), done, pending + NatBits(x, w))
  {
    var g := NatBits(x, w);
    assert s + g == done + (pending + g);
    ShiftIn(acc, pending, w, x);
  }

  lemma StreamOut(s: seq<bit>, acc: nat, done: seq<bit>, pending: seq<bit>, w: nat)
    requires Stream(s, acc, done, pending) && w <= |pending|
    ensures Stream(s, acc, done + pending[..w], pending[w..])
    ensures Mask(Shr(acc, |pending| - w), w) == Value(pending[..w])
  {
    assert done + pending == done + pending[..w] + pending[w..];
    ShiftOut(acc, pending, w);
  }

  // ---------------------------------------------------------------- regrouping

  /** The bit string of a sequence of w-bit numbers. */
  function Flatten(ns: seq<nat>, w: nat): seq<bit> {
    if ns == [] then [] else NatBits(ns[0], w) + Flatten(ns[1..], w)
  }

  /** A bit string cut into w-bit numbers; an incomplete last group is dropped. */
  function Groups(s: seq<bit>, w: nat): (ns: seq<nat>)
    requires w > 0
    ensures forall i :: 0 <= i < |ns| ==> ns[i] < Pow2(w)
  {
    if |s| < w then [] else [Value(s[..w])] + Groups(s[w..], w)
  }

  /** Zero-filled to whole groups. */
  function Filled(s: seq<bit>, w: nat): (f: seq<bit>)
    requires w > 0
    ensures |s| <= |f| < |s| + w
  {
    if s == [] then []
    else if |s| <= w then s + NatBits(0, w - |s|)
    else s[..w] + Filled(s[w..], w)
  }

  ghost predicate Whole(s: seq<bit>, w: nat)
    requires w > 0
  {
    s == [] || (w <= |s| && Whole(s[w..], w))
  }

  lemma {:induction false} FlattenLength(ns: seq<nat>, w: nat)
    ensures |Flatten(ns, w)| == |ns| * w
  {
    if ns != [] {
      FlattenLength(ns[1..], w);
      assert |ns| * w == w + (|ns| - 1) * w;
    }
  }

  lemma {:induction false} GroupsLength(s: seq<bit>, w: nat)
    requires w > 0
    ensures |Groups(s, w)| * w <= |s| < |Groups(s, w)| * w + w
  {
    if |s| >= w {
      GroupsLength(s[w..], w);
      var n := |Groups(s[w..], w)|;
      assert (n + 1) * w == n * w + w;
    }
  }

  lemma {:induction false} FlattenAppend(ns: seq<nat>, x: nat, w: nat)
    ensures Flatten(ns + [x], w) == Flatten(ns, w) + NatBits(x, w)
  {
    if ns == [] {
      assert ns + [x] == [x] && [x][1..] == [];
    } else {
      assert (ns + [x])[1..] == ns[1..] + [x];
      FlattenAppend(ns[1..], x, w);
    }
  }

  lemma {:induction false} GroupsAppend(s: seq<bit>, g: seq<bit>, w: nat)
    requires w > 0 && Whole(s, w) && |g| == w
    ensures Groups(s + g, w) == Groups(s, w) + [Value(g)] && Whole(s + g, w)
  {
    if s == [] {
      assert s + g == g && g[..w] == g && g[w..] == [];
    } else {
      assert (s + g)[..w] == s[..w] && (s + g)[w..] == s[w..] + g;
      GroupsAppend(s[w..], g, w);
    }
  }

  lemma {:induction false} FilledAppend(s: seq<bit>, p: seq<bit>, w: nat)
    requires w > 0 && Whole(s, w) && 0 < |p| <= w
    ensures Filled(s + p, w) == s + (p + NatBits(0, w - |p|))
  {
    var z := NatBits(0, w - |p|);
    if s == [] {
      assert s + p == p && s + (p + z) == p + z;
    } else {
      var (hd, rest) := (s[..w], s[w..]);
      FilledAppend(rest, p, w);
      assert (s + p)[..w] == hd && (s + p)[w..] == rest + p;
      assert hd + (rest + (p + z)) == s + (p + z);
    }
  }

  lemma {:induction false} FilledKeeps(s: seq<bit>, w: nat)
    requires w > 0
    ensures Whole(Filled(s, w), w) && Filled(s, w)[..|s|] == s
  {
    var f := Filled(s, w);
    if s == [] {
    } else if |s| <= w {
      assert f[w..] == [];
    } else {
      var g := Filled(s[w..], w);
      FilledKeeps(s[w..], w);
      assert f[w..] == g;
      assert f[..|s|] == s[..w] + g[..|s| - w];
    }
  }

  lemma FirstCut(g: seq<bit>, s: seq<bit>, tail: seq<bit>)
    ensures g + s + tail == g + (s + tail)
  {
  }

  lemma FirstGroup(g: seq<bit>, rest: seq<bit>, w: nat)
    requires |g| == w > 0
    ensures Groups(g + rest, w) == [Value(g)] + Groups(rest, w)
  {
    assert (g + rest)[..w] == g && (g + rest)[w..] == rest;
  }

  /** Cutting undoes flattening, whatever incomplete group follows. */
  lemma {:induction false} GroupsOfFlatten(ns: seq<nat>, tail: seq<bit>, w: nat)
    requires |tail| < w
    requires forall i :: 0 <= i < |ns| ==> ns[i] < Pow2(w)
    ensures Groups(Flatten(ns, w) + tail, w) == ns
  {
    if ns == [] {
      assert Flatten(ns, w) + tail == tail;
    } else {
      var rest := Flatten(ns[1..], w) + tail;
      FirstCut(NatBits(ns[0], w), Flatten(ns[1..], w), tail);
      FirstGroup(NatBits(ns[0], w), rest, w);
      ValueOfSmall(ns[0], w);
      GroupsOfFlatten(ns[1..], tail, w);
      assert [ns[0]] + ns[1..] == ns;
    }
  }

  /** Flattening undoes cutting on whole groups. */
  lemma {:induction false} FlattenOfGroups(s: seq<bit>, w: nat)
    requires w > 0 && Whole(s, w)
    ensures Flatten(Groups(s, w), w) == s
  {
    if s != [] {
      BitsOfValue(s[..w]);
      FlattenOfGroups(s[w..], w);
      var ns := Groups(s, w);
      assert ns[1..] == Groups(s[w..], w);
      assert s == s[..w] + s[w..];
    }
  }
}
