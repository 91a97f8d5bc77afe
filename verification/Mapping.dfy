/** Key-value mappings: a strictly sorted set of entries, its serialized form, and what is read back from
    arbitrary bytes. */
module Mappings {
  import opened Bytes

  const KV_DELIM: byte := '=' as int
  const TAIL_DELIM: byte := ';' as int
  const SIZE_SIZE: nat := 2
  const MIN_SIZE: nat := 6
  const MAX_SIZE: nat := 65537
  const MAX_KV: nat := 255

  datatype Entry = Entry(key: Buffer, value: Buffer)
  {
    predicate Valid() {
      1 <= |key| <= MAX_KV && 1 <= |value| <= MAX_KV
    }

    function Size(): nat {
      if key == [] then 0 else |key| + |value| + 4
    }
  }

  // ---------------------------------------------------------------- the order of keys

  /** Lexicographic order on octets. */
  predicate Less(a: Buffer, b: Buffer) {
    b != [] && (a == [] || a[0] < b[0] || (a[0] == b[0] && Less(a[1..], b[1..])))
  }

  lemma {:induction false} LessTotal(a: Buffer, b: Buffer)
    ensures Less(a, b) || a == b || Less(b, a)
    ensures Less(a, b) ==> a != b && !Less(b, a)
  {
    if a != [] && b != [] && a[0] == b[0] {
      LessTotal(a[1..], b[1..]);
      assert a == [a[0]] + a[1..] && b == [b[0]] + b[1..];
    }
  }

  lemma {:induction false} LessTransitive(a: Buffer, b: Buffer, c: Buffer)
    requires Less(a, b) && Less(b, c)
    ensures Less(a, c)
  {
    if a != [] && a[0] == b[0] == c[0] {
      LessTransitive(a[1..], b[1..], c[1..]);
    }
  }

  /** After k octets in common the smaller octet comes first, or a string that ends there. */
  ghost predicate BeforeAt(a: Buffer, b: Buffer, k: nat) {
    k <= |a| && k < |b| && a[..k] == b[..k] && (k == |a| || a[k] < b[k])
  }

  ghost predicate Before(a: Buffer, b: Buffer) {
    exists k: nat :: BeforeAt(a, b, k)
  }

  lemma FirstShared(a: Buffer, b: Buffer, k: nat)
    ensures BeforeAt(a, b, k) && k > 0 ==> a != [] && a[0] == b[0]
  {
    if BeforeAt(a, b, k) && k > 0 {
      assert a[0] == a[..k][0];
    }
  }

  lemma {:induction false} LessIsBefore(a: Buffer, b: Buffer)
    ensures Less(a, b) <==> Before(a, b)
  {
    if a != [] && b != [] && a[0] == b[0] {
      LessIsBefore(a[1..], b[1..]);
      if Less(a, b) {
        var k: nat :| BeforeAt(a[1..], b[1..], k);
        assert a[..k + 1] == [a[0]] + a[1..][..k] == b[..k + 1];
        assert BeforeAt(a, b, k + 1);
      }
      forall k: nat | BeforeAt(a, b, k)
        ensures BeforeAt(a[1..], b[1..], k - 1)
      {
        assert a[1..][..k - 1] == a[..k][1..] == b[1..][..k - 1];
      }
    } else {
      assert b != [] && (a == [] || a[0] < b[0]) ==> BeforeAt(a, b, 0);
      forall k: nat
        ensures BeforeAt(a, b, k) ==> k == 0
      {
        FirstShared(a, b, k);
      }
    }
  }

  ghost predicate Sorted(kv: seq<Entry>) {
    forall i, j :: 0 <= i < j < |kv| ==> Less(kv[i].key, kv[j].key)
  }

  // ---------------------------------------------------------------- the sorted set

  /** Emplacing into the set: nothing happens if the key is there. */
  function Insert(kv: seq<Entry>, e: Entry): (r: seq<Entry>) {
    if kv == [] then [e]
    else if Less(e.key, kv[0].key) then [e] + kv
    else if e.key == kv[0].key then kv
    else [kv[0]] + Insert(kv[1..], e)
  }

  function Lookup(kv: seq<Entry>, key: Buffer): Option<Buffer> {
    if kv == [] then None
    else if kv[0].key == key then Some(kv[0].value)
    else Lookup(kv[1..], key)
  }

  /** An entry's value, empty if there is none. */
  function ValueOf(kv: seq<Entry>, key: Buffer): Buffer {
    var found := Lookup(kv, key);
    if found.Some? then found.value else []
  }

  /** Sum of the entries' sizes, and the two size bytes. */
  function Total(kv: seq<Entry>): nat {
    if kv == [] then SIZE_SIZE else kv[0].Size() + Total(kv[1..])
  }

  /** What every reachable mapping satisfies. */
  ghost predicate ValidEntries(kv: seq<Entry>) {
    && (forall i :: 0 <= i < |kv| ==> kv[i].Valid())
    && Sorted(kv)
    && Total(kv) <= 65535
  }

  lemma {:induction false} InsertMembers(kv: seq<Entry>, e: Entry)
    ensures forall x :: x in Insert(kv, e) ==> x == e || x in kv
    ensures forall x :: x in kv ==> x in Insert(kv, e)
  {
    if kv != [] {
      InsertMembers(kv[1..], e);
      assert kv == [kv[0]] + kv[1..];
    }
  }

  lemma {:induction false} InsertSorted(kv: seq<Entry>, e: Entry)
    requires Sorted(kv)
    ensures Sorted(Insert(kv, e))
  {
    if kv != [] {
      LessTotal(e.key, kv[0].key);
      if Less(e.key, kv[0].key) {
        forall j | 0 < j < |kv|
          ensures Less(e.key, kv[j].key)
        {
          LessTransitive(e.key, kv[0].key, kv[j].key);
        }
      } else if e.key != kv[0].key {
        var r := Insert(kv[1..], e);
        InsertSorted(kv[1..], e);
        InsertMembers(kv[1..], e);
        forall j | 0 <= j < |r|
          ensures Less(kv[0].key, r[j].key)
        {
          assert r[j] in r;
        }
      }
    }
  }

  lemma {:induction false} AbsentBelow(kv: seq<Entry>, key: Buffer)
    requires Sorted(kv) && (kv != [] ==> Less(key, kv[0].key))
    ensures Lookup(kv, key) == None
  {
    if kv != [] {
      LessTotal(key, kv[0].key);
      if |kv| > 1 {
        LessTransitive(key, kv[0].key, kv[1].key);
      }
      AbsentBelow(kv[1..], key);
    }
  }

  /** First write wins. */
  lemma {:induction false} InsertLookup(kv: seq<Entry>, e: Entry, key: Buffer)
    requires Sorted(kv)
    ensures Lookup(Insert(kv, e), key) ==
      if Lookup(kv, key).Some? then Lookup(kv, key) else if key == e.key then Some(e.value) else None
  {
    if kv != [] {
      LessTotal(e.key, kv[0].key);
      if Less(e.key, kv[0].key) {
        assert ([e] + kv)[1..] == kv;
        AbsentBelow(kv, e.key);
      } else if e.key != kv[0].key {
        assert ([kv[0]] + Insert(kv[1..], e))[1..] == Insert(kv[1..], e);
        InsertLookup(kv[1..], e, key);
      }
    }
  }

  lemma AbsentAfter(a: seq<Entry>)
    requires a != [] && Sorted(a)
    ensures Lookup(a[1..], a[0].key) == None
  {
    AbsentBelow(a[1..], a[0].key);
  }

  lemma {:induction false} LookupIsMember(kv: seq<Entry>, key: Buffer, value: Buffer)
    requires Sorted(kv)
    ensures Lookup(kv, key) == Some(value) <==> Entry(key, value) in kv
  {
    if kv != [] {
      LessTotal(kv[0].key, kv[0].key);
      LookupIsMember(kv[1..], key, value);
      AbsentAfter(kv);
      assert kv == [kv[0]] + kv[1..];
    }
  }

  lemma {:induction false} InsertTotal(kv: seq<Entry>, e: Entry)
    requires Sorted(kv)
    ensures Total(Insert(kv, e)) == if Lookup(kv, e.key).Some? then Total(kv) else e.Size() + Total(kv)
  {
    if kv != [] {
      LessTotal(e.key, kv[0].key);
      if Less(e.key, kv[0].key) {
        assert ([e] + kv)[1..] == kv;
        AbsentBelow(kv, e.key);
      } else if e.key != kv[0].key {
        assert ([kv[0]] + Insert(kv[1..], e))[1..] == Insert(kv[1..], e);
        InsertTotal(kv[1..], e);
      }
    }
  }

  /** An entry above all others goes to the end. */
  lemma {:induction false} InsertLast(kv: seq<Entry>, e: Entry)
    requires Sorted(kv + [e])
    ensures Insert(kv, e) == kv + [e]
  {
    if kv != [] {
      var n := |kv|;
      assert (kv + [e])[0] == kv[0] && (kv + [e])[n] == e;
      LessTotal(kv[0].key, e.key);
      assert kv[1..] + [e] == (kv + [e])[1..];
      InsertLast(kv[1..], e);
    }
  }

  lemma SameFirst(a: seq<Entry>, b: seq<Entry>)
    requires a != [] && b != [] && Sorted(a) && Sorted(b)
    requires Lookup(b, a[0].key).Some? && Lookup(a, b[0].key).Some?
    ensures a[0].key == b[0].key
  {
    LessTotal(a[0].key, b[0].key);
    if Less(a[0].key, b[0].key) {
      AbsentBelow(b, a[0].key);
    } else if Less(b[0].key, a[0].key) {
      AbsentBelow(a, b[0].key);
    }
  }

  /** A sorted set is determined by what can be looked up in it. */
  lemma {:induction false} SortedUnique(a: seq<Entry>, b: seq<Entry>)
    requires Sorted(a) && Sorted(b)
    requires forall key :: Lookup(a, key) == Lookup(b, key)
    ensures a == b
  {
    if a == [] {
      assert b == [] || Lookup(b, b[0].key).Some?;
    } else {
      assert Lookup(a, a[0].key) == Some(a[0].value) == Lookup(b, a[0].key);
      assert Lookup(b, b[0].key) == Some(b[0].value) == Lookup(a, b[0].key);
      SameFirst(a, b);
      forall key
        ensures Lookup(a[1..], key) == Lookup(b[1..], key)
      {
        if key == a[0].key {
          AbsentAfter(a);
          AbsentAfter(b);
        } else {
          assert Lookup(a, key) == Lookup(b, key);
        }
      }
      SortedUnique(a[1..], b[1..]);
      assert a == [a[0]] + a[1..] && b == [b[0]] + b[1..];
    }
  }

  // ---------------------------------------------------------------- adding

  /** The outcome of an operation that may throw half-way: whether it returned, and the entries it left. */
  datatype Outcome = Outcome(ok: bool, kv: seq<Entry>)

  ghost function AddSpec(kv: seq<Entry>, e: Entry): Outcome {
    if e.Valid() && e.Size() + Total(kv) + SIZE_SIZE <= MAX_SIZE then Outcome(true, Insert(kv, e))
    else Outcome(false, kv)
  }

  lemma AddKeepsValid(kv: seq<Entry>, e: Entry)
    requires ValidEntries(kv)
    ensures ValidEntries(AddSpec(kv, e).kv)
  {
    var r := Insert(kv, e);
    InsertSorted(kv, e);
    InsertMembers(kv, e);
    InsertTotal(kv, e);
    if e.Valid() {
      forall i | 0 <= i < |r|
        ensures r[i].Valid()
      {
        assert r[i] in r;
      }
    }
  }

  // ---------------------------------------------------------------- the serialized form

  /** A length-prefixed string and its delimiter. */
  function EncodeField(s: Buffer, delim: byte): (b: Buffer)
    requires |s| <= MAX_KV
    ensures |b| == |s| + 2
  {
    [|s|] + s + [delim]
  }

  function EncodeEntry(e: Entry): (b: Buffer)
    requires e.Valid()
    ensures |b| == e.Size()
  {
    EncodeField(e.key, KV_DELIM) + EncodeField(e.value, TAIL_DELIM)
  }

  ghost function EncodeEntries(kv: seq<Entry>): (b: Buffer)
    requires forall i :: 0 <= i < |kv| ==> kv[i].Valid()
    ensures |b| == Total(kv) - SIZE_SIZE
  {
    if kv == [] then [] else EncodeEntry(kv[0]) + EncodeEntries(kv[1..])
  }

  ghost function Encode(kv: seq<Entry>): (b: Buffer)
    requires ValidEntries(kv)
    ensures |b| == Total(kv)
  {
    Native16(Total(kv) - SIZE_SIZE) + EncodeEntries(kv)
  }

  lemma {:induction false} EncodeNext(kv: seq<Entry>, i: nat)
    requires i < |kv| && forall j :: 0 <= j < |kv| ==> kv[j].Valid()
    ensures EncodeEntries(kv[..i + 1]) == EncodeEntries(kv[..i]) + EncodeEntry(kv[i])
    ensures Total(kv[i..]) == kv[i].Size() + Total(kv[i + 1..])
  {
    assert kv[i..][1..] == kv[i + 1..];
    if i == 0 {
      assert kv[..1][1..] == [];
    } else {
      assert kv[..i + 1][1..] == kv[1..][..i] && kv[..i][1..] == kv[1..][..i - 1];
      EncodeNext(kv[1..], i - 1);
    }
  }

  // ---------------------------------------------------------------- reading

  /** A string off the front: its delimiter is skipped without looking at it. */
  ghost function ParseField(r: Buffer): Option<(Buffer, Buffer)> {
    if |r| < 1 then None else
    var k: nat := r[0];
    if |r| < k + 2 then None else Some((r[1..k + 1], r[k + 2..]))
  }

  ghost function ParsePair(r: Buffer): Option<(Entry, Buffer)> {
    match ParseField(r)
    case None => None
    case Some((key, r')) =>
      match ParseField(r')
      case None => None
      case Some((value, r'')) => Some((Entry(key, value), r''))
  }

  /** The deserializing loop: it reads to the end of the buffer. */
  ghost function LoadAll(rest: Buffer, kv: seq<Entry>): Outcome
    decreases |rest|
  {
    if rest == [] then Outcome(true, kv) else
    match ParsePair(rest)
    case None => Outcome(false, kv)
    case Some((e, rest')) =>
      var added := AddSpec(kv, e);
      if added.ok then LoadAll(rest', added.kv) else added
  }

  /** A zero length field ends the reading before the old entries are cleared. */
  ghost function DeserializeSpec(buf: Buffer, kv: seq<Entry>): Outcome {
    if |buf| < SIZE_SIZE then Outcome(false, kv) else
    var size := FromNative16(buf[..2]);
    if size == 0 then Outcome(true, kv)
    else if size < MIN_SIZE || size + SIZE_SIZE > |buf| then Outcome(false, kv)
    else LoadAll(buf[2..], [])
  }

  lemma {:induction false} LoadKeepsValid(rest: Buffer, kv: seq<Entry>)
    requires ValidEntries(kv)
    ensures ValidEntries(LoadAll(rest, kv).kv)
    decreases |rest|
  {
    if rest != [] && ParsePair(rest).Some? {
      var (e, rest') := ParsePair(rest).value;
      AddKeepsValid(kv, e);
      LoadKeepsValid(rest', AddSpec(kv, e).kv);
    }
  }

  lemma DeserializeKeepsValid(buf: Buffer, kv: seq<Entry>)
    requires ValidEntries(kv)
    ensures ValidEntries(DeserializeSpec(buf, kv).kv)
  {
    if |buf| >= 2 {
      LoadKeepsValid(buf[2..], []);
    }
  }

  // ---------------------------------------------------------------- in numbers

  lemma {:induction false} EntriesSplit(kv: seq<Entry>, i: nat)
    requires i <= |kv| && forall j :: 0 <= j < |kv| ==> kv[j].Valid()
    ensures EncodeEntries(kv) == EncodeEntries(kv[..i]) + EncodeEntries(kv[i..])
  {
    if i == 0 {
      assert kv[0..] == kv;
    } else {
      EntriesSplit(kv[1..], i - 1);
      assert kv[..i][1..] == kv[1..][..i - 1] && kv[1..][i - 1..] == kv[i..];
      Assoc(EncodeEntry(kv[0]), EncodeEntries(kv[..i][1..]), EncodeEntries(kv[i..]));
    }
  }

  lemma KeysRise(kv: seq<Entry>)
    requires Sorted(kv)
    ensures forall i :: 0 < i < |kv| ==> Before(kv[i - 1].key, kv[i].key)
  {
    forall i | 0 < i < |kv|
      ensures Before(kv[i - 1].key, kv[i].key)
    {
      LessIsBefore(kv[i - 1].key, kv[i].key);
    }
  }

  lemma EntryBytes(e: Entry)
    requires e.Valid()
    ensures EncodeEntry(e) == [|e.key|] + e.key + ['=' as int] + [|e.value|] + e.value + [';' as int]
  {
  }

  lemma Behind(n: Buffer, s: Buffer, e: Buffer, t: Buffer)
    ensures var b := n + (s + (e + t));
      b[..|n|] == n && b[|n| + |s|..|n| + |s| + |e|] == e
  {
  }

  lemma EntryPlace(kv: seq<Entry>, i: nat)
    requires ValidEntries(kv) && i < |kv|
    ensures var (b, p, e) := (Encode(kv), Total(kv[..i]), EncodeEntry(kv[i]));
      && b[..2] == Native16(|b| - 2) && p + |e| <= |b| && b[p..p + |e|] == e
  {
    EntriesSplit(kv, i);
    assert kv[i..][1..] == kv[i + 1..];
    Behind(Native16(Total(kv) - 2), EncodeEntries(kv[..i]), EncodeEntry(kv[i]), EncodeEntries(kv[i + 1..]));
  }

  /** Where an entry is: behind the length of all entries and the entries before it. It is two strings, each
      with its length in front and its delimiter behind. */
  lemma Written(kv: seq<Entry>, i: nat)
    requires ValidEntries(kv) && i < |kv|
    ensures var (b, p, k, v) := (Encode(kv), Total(kv[..i]), kv[i].key, kv[i].value);
      && LittleEndian(b[..2]) + 2 == |b| && p + |k| + |v| + 4 <= |b|
      && b[p..p + |k| + |v| + 4] == [|k|] + k + ['=' as int] + [|v|] + v + [';' as int]
  {
    EntryPlace(kv, i);
    EntryBytes(kv[i]);
    ByteOrder16(Encode(kv)[..2]);
  }

  /** What can be added, and how much of it. */
  lemma AddLimits(kv: seq<Entry>, key: Buffer, value: Buffer)
    ensures AddSpec(kv, Entry(key, value)).ok
      <==> 1 <= |key| <= 255 && 1 <= |value| <= 255 && Total(kv) + |key| + |value| + 4 <= 65535
  {
  }

  /** The length read is none at all, one that fits, or an error. */
  lemma LengthLimits(buf: Buffer, kv: seq<Entry>)
    requires |buf| >= 2
    ensures var (n, r) := (LittleEndian(buf[..2]), DeserializeSpec(buf, kv));
      if n == 0 then r == Outcome(true, kv)
      else if 6 <= n <= |buf| - 2 then r == LoadAll(buf[2..], []) else r == Outcome(false, kv)
  {
    ByteOrder16(buf[..2]);
  }

  // ---------------------------------------------------------------- the class

  method WriteField(writer: Writer, s: Buffer, delim: byte) returns (ok: bool)
    requires writer.Valid() && |s| <= MAX_KV && writer.pos + |s| + 2 <= |writer.buf|
    modifies writer
    ensures writer.Valid() && |writer.buf| == |old(writer.buf)|
    ensures ok && writer.Done() == old(writer.Done()) + EncodeField(s, delim)
  {
    ok := writer.WriteData([|s|]);
    ok := writer.WriteData(s);
    ok := writer.WriteData([delim]);
  }

  method WriteEntry(writer: Writer, e: Entry) returns (ok: bool)
    requires writer.Valid() && e.Valid() && writer.pos + e.Size() <= |writer.buf|
    modifies writer
    ensures writer.Valid() && |writer.buf| == |old(writer.buf)|
    ensures ok && writer.Done() == old(writer.Done()) + EncodeEntry(e)
  {
    ok := WriteField(writer, e.key, KV_DELIM);
    ok := WriteField(writer, e.value, TAIL_DELIM);
  }

  method WriteEntries(writer: Writer, kv: seq<Entry>) returns (ok: bool)
    requires forall i :: 0 <= i < |kv| ==> kv[i].Valid()
    requires writer.Valid() && writer.pos + Total(kv) == |writer.buf| + SIZE_SIZE
    modifies writer
    ensures ok && writer.buf == old(writer.Done()) + EncodeEntries(kv)
  {
    ok := true;
    for i := 0 to |kv|
      invariant ok && writer.Valid() && |writer.buf| == old(|writer.buf|)
      invariant writer.Done() == old(writer.Done()) + EncodeEntries(kv[..i])
      invariant writer.pos + Total(kv[i..]) == |writer.buf| + SIZE_SIZE
    {
      EncodeNext(kv, i);
      ok := WriteEntry(writer, kv[i]);
      Assoc(old(writer.Done()), EncodeEntries(kv[..i]), EncodeEntry(kv[i]));
    }
    assert writer.buf == writer.Done() && kv[..|kv|] == kv;
  }

  method ReadField(reader: Reader) returns (ok: bool, s: Buffer)
    requires reader.Valid()
    modifies reader
    ensures reader.Valid()
    ensures ParseField(old(reader.Rest())) == if ok then Some((s, reader.Rest())) else None
  {
    s := [];
    var size, d;
    ok, size := reader.ReadByte();
    if !ok { return; }
    ghost var (r, k: nat) := (old(reader.Rest()), size);
    ok, d := reader.ReadData(size);
    if !ok { return; }
    assert d == r[1..k + 1] && reader.Rest() == r[k + 1..];
    ok := reader.SkipBytes(1);
    s := d;
  }

  class Mapping {
    var kv: seq<Entry>
    var buffer: Buffer

    ghost predicate Valid()
      reads this
    {
      ValidEntries(kv)
    }

    constructor ()
      ensures Valid() && kv == [] && buffer == []
    {
      kv, buffer := [], [];
    }

    constructor FromEntries(entries: seq<Entry>)
      requires ValidEntries(entries)
      ensures Valid() && kv == entries && buffer == []
    {
      kv, buffer := entries, [];
    }

    /** The value of a key, empty if there is none; a key of an impossible size throws. */
    method Find(key: Buffer) returns (ok: bool, value: Buffer)
      ensures ok == (1 <= |key| <= MAX_KV)
      ensures ok ==> value == ValueOf(kv, key)
    {
      ok, value := 1 <= |key| <= MAX_KV, [];
      if ok {
        value := ValueOf(kv, key);
      }
    }

    /** Returned as 16 bits, which loses nothing. */
    method Size() returns (n: u16)
      requires Valid()
      ensures n == Total(kv)
    {
      var totalSize := SIZE_SIZE;
      for i := 0 to |kv|
        invariant totalSize + Total(kv[i..]) == Total(kv) + SIZE_SIZE
      {
        assert kv[i..][1..] == kv[i + 1..];
        totalSize := totalSize + kv[i].Size();
      }
      n := totalSize % 0x1_0000;
    }

    method Add(key: Buffer, value: Buffer) returns (ok: bool)
      requires Valid()
      modifies this`kv
      ensures Valid() && Outcome(ok, kv) == AddSpec(old(kv), Entry(key, value))
    {
      var entry := Entry(key, value);
      if !entry.Valid() {
        return false;
      }
      var size := Size();
      if entry.Size() + size + SIZE_SIZE > MAX_SIZE {
        return false;
      }
      AddKeepsValid(kv, entry);
      kv := Insert(kv, entry);
      return true;
    }

    method Serialize()
      requires Valid()
      modifies this`buffer
      ensures buffer == Encode(kv)
      ensures forall i :: 0 < i < |kv| ==> Before(kv[i - 1].key, kv[i].key)
    {
      KeysRise(kv);
      var size := Size();
      var writer := new Writer(Resized(buffer, size));
      var ok := writer.WriteData(Native16(size - SIZE_SIZE));
      assert writer.Done() == Native16(Total(kv) - SIZE_SIZE);
      ok := WriteEntries(writer, kv);
      buffer := writer.buf;
    }

    method Deserialize() returns (ok: bool)
      requires Valid()
      modifies this`kv
      ensures Valid() && Outcome(ok, kv) == DeserializeSpec(buffer, old(kv))
    {
      var reader := new Reader(buffer);
      var d, key, value;
      ok, d := reader.ReadData(2);
      if !ok {
        return false;
      }
      var size := FromNative16(d);
      if size == 0 {
        return true;
      }
      if size < MIN_SIZE || size + SIZE_SIZE > |buffer| {
        return false;
      }
      kv := [];
      ghost var target := LoadAll(buffer[2..], []);
      while reader.GCount() != 0
        invariant reader.Valid() && fresh(reader) && Valid() && LoadAll(reader.Rest(), kv) == target
        decreases |reader.Rest()|
      {
        ok, key := ReadField(reader);
        if !ok {
          return false;
        }
        ok, value := ReadField(reader);
        if !ok {
          return false;
        }
        ok := Add(key, value);
        if !ok {
          return false;
        }
      }
      return true;
    }
  }

  // ---------------------------------------------------------------- round trip and canonical form

  lemma FieldBack(f: Buffer, delim: byte, rest: Buffer)
    requires |f| <= MAX_KV
    ensures ParseField(EncodeField(f, delim) + rest) == Some((f, rest))
  {
    var r := EncodeField(f, delim) + rest;
    assert r[1..|f| + 1] == f && r[|f| + 2..] == rest;
  }

  lemma PairBack(e: Entry, rest: Buffer)
    requires e.Valid()
    ensures ParsePair(EncodeEntry(e) + rest) == Some((e, rest))
  {
    var (k, v) := (EncodeField(e.key, KV_DELIM), EncodeField(e.value, TAIL_DELIM));
    Assoc(k, v, rest);
    FieldBack(e.key, KV_DELIM, v + rest);
    FieldBack(e.value, TAIL_DELIM, rest);
  }

  lemma {:induction false} TotalSplit(kv: seq<Entry>, i: nat)
    requires i <= |kv|
    ensures Total(kv[..i]) + Total(kv[i..]) == Total(kv) + SIZE_SIZE
  {
    if i == 0 {
      assert kv[0..] == kv;
    } else {
      assert kv[..i][1..] == kv[1..][..i - 1] && kv[i..] == kv[1..][i - 1..];
      TotalSplit(kv[1..], i - 1);
    }
  }

  /** Loading the entries of a valid mapping one after the other never meets the capacity check. */
  lemma {:induction false} LoadBack(kv: seq<Entry>, i: nat)
    requires ValidEntries(kv) && i <= |kv|
    ensures LoadAll(EncodeEntries(kv[i..]), kv[..i]) == Outcome(true, kv)
    decreases |kv| - i
  {
    if i == |kv| {
      assert kv[i..] == [] && kv[..i] == kv;
    } else {
      assert kv[i..][1..] == kv[i + 1..] && kv[..i + 1] == kv[..i] + [kv[i]];
      PairBack(kv[i], EncodeEntries(kv[i + 1..]));
      InsertLast(kv[..i], kv[i]);
      TotalSplit(kv, i);
      LoadBack(kv, i + 1);
    }
  }

  /** Reading a serialized mapping restores exactly its entries, unless the mapping is empty and the
      object read into is not: then the old entries survive. */
  lemma RoundTrip(kv: seq<Entry>, old_: seq<Entry>)
    requires ValidEntries(kv)
    ensures DeserializeSpec(Encode(kv), old_) == Outcome(true, if kv == [] then old_ else kv)
  {
    var b := Encode(kv);
    assert b[..2] == Native16(Total(kv) - SIZE_SIZE) && b[2..] == EncodeEntries(kv);
    if kv != [] {
      assert kv[..0] == [] && kv[0..] == kv;
      LoadBack(kv, 0);
    }
  }

  lemma {:induction false} LoadNonEmpty(rest: Buffer, kv: seq<Entry>)
    requires LoadAll(rest, kv).ok && (rest != [] || kv != [])
    ensures LoadAll(rest, kv).kv != []
    decreases |rest|
  {
    if rest != [] {
      var (e, rest') := ParsePair(rest).value;
      LoadNonEmpty(rest', AddSpec(kv, e).kv);
    }
  }

  /** Whatever was accepted with a non-zero length field, writing it out again gives bytes that reading
      and writing no longer change. */
  lemma CanonicalForm(buf: Buffer, old_: seq<Entry>, any: seq<Entry>)
    requires ValidEntries(old_) && DeserializeSpec(buf, old_).ok && FromNative16(buf[..2]) != 0
    ensures var kv := DeserializeSpec(buf, old_).kv;
      ValidEntries(kv) && DeserializeSpec(Encode(kv), any) == Outcome(true, kv)
  {
    var kv := DeserializeSpec(buf, old_).kv;
    DeserializeKeepsValid(buf, old_);
    LoadNonEmpty(buf[2..], []);
    RoundTrip(kv, any);
  }

  // ---------------------------------------------------------------- bytes that are their own canonical form

  /** The first entry has the delimiters that serialization writes. */
  ghost predicate Delimited(r: Buffer)
    requires ParsePair(r).Some?
  {
    var e := ParsePair(r).value.0;
    r[|e.key| + 1] == KV_DELIM && r[|e.key| + |e.value| + 3] == TAIL_DELIM
  }

  /** Entries whose keys rise, from the one before. */
  ghost predicate InOrder(r: Buffer, before: Buffer)
    decreases |r|
  {
    r == [] || (
      && ParsePair(r).Some? && Delimited(r)
      && var (e, r') := ParsePair(r).value; Less(before, e.key) && InOrder(r', e.key))
  }

  lemma FieldBytes(r: Buffer, delim: byte)
    requires ParseField(r).Some?
    ensures var (s, r') := ParseField(r).value;
      |s| <= MAX_KV && r == EncodeField(s, r[|s| + 1]) + r'
  {
  }

  lemma DelimitedBytes(r: Buffer)
    requires ParsePair(r).Some? && ParsePair(r).value.0.Valid() && Delimited(r)
    ensures var (e, r') := ParsePair(r).value; r == EncodeEntry(e) + r'
  {
    var (key, r1) := ParseField(r).value;
    var (value, r2) := ParseField(r1).value;
    FieldBytes(r, KV_DELIM);
    FieldBytes(r1, TAIL_DELIM);
    assert r1[|value| + 1] == r[|key| + |value| + 3];
    Assoc(EncodeField(key, KV_DELIM), EncodeField(value, TAIL_DELIM), r2);
  }

  lemma {:induction false} EncodedInOrder(kv: seq<Entry>, before: Buffer)
    requires Sorted(kv) && (forall i :: 0 <= i < |kv| ==> kv[i].Valid()) && (kv != [] ==> Less(before, kv[0].key))
    ensures InOrder(EncodeEntries(kv), before)
  {
    if kv != [] {
      var r := EncodeEntries(kv);
      PairBack(kv[0], EncodeEntries(kv[1..]));
      assert r[|kv[0].key| + 1] == KV_DELIM && r[|kv[0].key| + |kv[0].value| + 3] == TAIL_DELIM;
      EncodedInOrder(kv[1..], kv[0].key);
    }
  }

  function LastKey(kv: seq<Entry>): Buffer {
    if kv == [] then [] else kv[|kv| - 1].key
  }

  lemma LastRises(kv: seq<Entry>, e: Entry)
    requires Sorted(kv) && Less(LastKey(kv), e.key)
    ensures Sorted(kv + [e]) && LastKey(kv + [e]) == e.key
  {
    forall i | 0 <= i < |kv|
      ensures Less(kv[i].key, e.key)
    {
      if i < |kv| - 1 {
        LessTransitive(kv[i].key, kv[|kv| - 1].key, e.key);
      }
    }
  }

  /** An entry in order goes to the end of the set. */
  lemma InOrderStep(r: Buffer, kv: seq<Entry>)
    requires ValidEntries(kv) && r != [] && LoadAll(r, kv).ok && InOrder(r, LastKey(kv))
    ensures var (e, r') := ParsePair(r).value;
      && e.Valid() && AddSpec(kv, e) == Outcome(true, kv + [e]) && ValidEntries(kv + [e]) && LastKey(kv + [e]) == e.key
  {
    var e := ParsePair(r).value.0;
    AddKeepsValid(kv, e);
    LastRises(kv, e);
    InsertLast(kv, e);
  }

  lemma {:induction false} EncodeLast(kv: seq<Entry>, e: Entry)
    requires e.Valid() && forall i :: 0 <= i < |kv| ==> kv[i].Valid()
    ensures EncodeEntries(kv + [e]) == EncodeEntries(kv) + EncodeEntry(e)
  {
    if kv == [] {
      assert [e][1..] == [] && [] + [e] == [e];
    } else {
      EncodeLast(kv[1..], e);
      assert (kv + [e])[1..] == kv[1..] + [e];
      Assoc(EncodeEntry(kv[0]), EncodeEntries(kv[1..]), EncodeEntry(e));
    }
  }

  lemma {:induction false} InOrderLoads(r: Buffer, kv: seq<Entry>)
    requires ValidEntries(kv) && LoadAll(r, kv).ok && InOrder(r, LastKey(kv))
    ensures ValidEntries(LoadAll(r, kv).kv) && EncodeEntries(LoadAll(r, kv).kv) == EncodeEntries(kv) + r
    decreases |r|
  {
    if r == [] {
      assert EncodeEntries(kv) + r == EncodeEntries(kv);
    } else {
      var (e, r') := ParsePair(r).value;
      InOrderStep(r, kv);
      InOrderLoads(r', kv + [e]);
      EncodeLast(kv, e);
      DelimitedBytes(r);
      Assoc(EncodeEntries(kv), EncodeEntry(e), r');
    }
  }

  lemma OriginalInOrder(buf: Buffer, kv: seq<Entry>)
    requires ValidEntries(kv) && buf == Encode(kv)
    ensures FromNative16(buf[..2]) as nat + SIZE_SIZE == |buf| && InOrder(buf[2..], [])
  {
    assert buf[2..] == EncodeEntries(kv) && buf[..2] == Native16(Total(kv) - SIZE_SIZE);
    EncodedInOrder(kv, []);
  }

  lemma Halves(buf: Buffer)
    requires |buf| >= SIZE_SIZE
    ensures buf == buf[..2] + buf[2..]
  {
  }

  lemma BuiltBytes(buf: Buffer, kv: seq<Entry>)
    requires ValidEntries(kv) && |buf| >= SIZE_SIZE && EncodeEntries(kv) == buf[2..]
    requires FromNative16(buf[..2]) as nat + SIZE_SIZE == |buf|
    ensures Encode(kv) == buf
  {
    NativeBytes16(buf[..2]);
    Halves(buf);
  }

  lemma LoadedOriginal(buf: Buffer)
    requires |buf| >= SIZE_SIZE && FromNative16(buf[..2]) as nat + SIZE_SIZE == |buf| && InOrder(buf[2..], [])
    requires LoadAll(buf[2..], []).ok
    ensures ValidEntries(LoadAll(buf[2..], []).kv) && Encode(LoadAll(buf[2..], []).kv) == buf
  {
    InOrderLoads(buf[2..], []);
    assert EncodeEntries([]) + buf[2..] == buf[2..];
    BuiltBytes(buf, LoadAll(buf[2..], []).kv);
  }

  /** Writing again what was read gives the bytes that were read exactly when the length field is theirs, the keys
      rise and the delimiters are the ones serialization writes. */
  lemma OriginalBytes(buf: Buffer, old_: seq<Entry>)
    requires ValidEntries(old_) && DeserializeSpec(buf, old_).ok && FromNative16(buf[..2]) != 0
    ensures var kv := DeserializeSpec(buf, old_).kv;
      && ValidEntries(kv)
      && (Encode(kv) == buf <==> FromNative16(buf[..2]) as nat + SIZE_SIZE == |buf| && InOrder(buf[2..], []))
  {
    var kv := DeserializeSpec(buf, old_).kv;
    DeserializeKeepsValid(buf, old_);
    if Encode(kv) == buf {
      OriginalInOrder(buf, kv);
    }
    if FromNative16(buf[..2]) as nat + SIZE_SIZE == |buf| && InOrder(buf[2..], []) {
      LoadedOriginal(buf);
    }
  }

  /** The encoding does not depend on the order in which entries were added: equal contents, equal bytes. */
  lemma EncodingDetermined(a: seq<Entry>, b: seq<Entry>)
    requires ValidEntries(a) && ValidEntries(b)
    requires forall key :: Lookup(a, key) == Lookup(b, key)
    ensures Encode(a) == Encode(b)
  {
    SortedUnique(a, b);
  }

  // ---------------------------------------------------------------- every run

  datatype Op = Add(e: Entry) | Load(buf: Buffer)

  /** The entries accepted by the reading loop, in reading order, repetitions included. */
  ghost function Accepted(rest: Buffer, kv: seq<Entry>): seq<Entry>
    decreases |rest|
  {
    if rest == [] || ParsePair(rest).None? then [] else
    var (e, rest') := ParsePair(rest).value;
    if !AddSpec(kv, e).ok then [] else [e] + Accepted(rest', AddSpec(kv, e).kv)
  }

  /** Whether a deserialization gets as far as clearing the old entries. */
  ghost predicate Clears(buf: Buffer) {
    |buf| >= SIZE_SIZE && var size := FromNative16(buf[..2]); MIN_SIZE <= size && size + SIZE_SIZE <= |buf|
  }

  /** The entries after a run on a new mapping. */
  ghost function Run(ops: seq<Op>): seq<Entry> {
    if ops == [] then [] else
    var kv := Run(ops[..|ops| - 1]);
    match ops[|ops| - 1]
    case Add(e) => AddSpec(kv, e).kv
    case Load(buf) => DeserializeSpec(buf, kv).kv
  }

  /** All writes accepted since the entries were last cleared, in order. */
  ghost function Writes(ops: seq<Op>): seq<Entry> {
    if ops == [] then [] else
    var (before, kv) := (ops[..|ops| - 1], Run(ops[..|ops| - 1]));
    match ops[|ops| - 1]
    case Add(e) => if AddSpec(kv, e).ok then Writes(before) + [e] else Writes(before)
    case Load(buf) => if Clears(buf) then Accepted(buf[2..], []) else Writes(before)
  }

  lemma {:induction false} LookupConcat(a: seq<Entry>, b: seq<Entry>, key: Buffer)
    ensures Lookup(a + b, key) == if Lookup(a, key).Some? then Lookup(a, key) else Lookup(b, key)
  {
    if a == [] {
      assert a + b == b;
    } else {
      assert (a + b)[1..] == a[1..] + b;
      LookupConcat(a[1..], b, key);
    }
  }

  lemma {:induction false} LoadLookup(rest: Buffer, kv: seq<Entry>, key: Buffer)
    requires ValidEntries(kv)
    ensures Lookup(LoadAll(rest, kv).kv, key) == Lookup(kv + Accepted(rest, kv), key)
    decreases |rest|
  {
    var more := Accepted(rest, kv);
    LookupConcat(kv, more, key);
    if rest != [] && ParsePair(rest).Some? && AddSpec(kv, ParsePair(rest).value.0).ok {
      var (e, rest') := ParsePair(rest).value;
      var kv' := AddSpec(kv, e).kv;
      AddKeepsValid(kv, e);
      InsertLookup(kv, e, key);
      LoadLookup(rest', kv', key);
      LookupConcat(kv', Accepted(rest', kv'), key);
      assert more[1..] == Accepted(rest', kv');
    }
  }

  /** In every run of additions and readings, failed ones included, the entries stay sorted, distinct and
      within 16 bits, and looking up a key finds the first value accepted for it. */
  lemma {:induction false} EveryRun(ops: seq<Op>, key: Buffer)
    ensures ValidEntries(Run(ops))
    ensures Lookup(Run(ops), key) == Lookup(Writes(ops), key)
  {
    if ops != [] {
      var before := ops[..|ops| - 1];
      var kv := Run(before);
      EveryRun(before, key);
      match ops[|ops| - 1] {
        case Add(e) =>
          AddKeepsValid(kv, e);
          InsertLookup(kv, e, key);
          LookupConcat(Writes(before), [e], key);
        case Load(buf) =>
          DeserializeKeepsValid(buf, kv);
          if Clears(buf) {
            LoadLookup(buf[2..], [], key);
            assert [] + Accepted(buf[2..], []) == Accepted(buf[2..], []);
          }
      }
    }
  }

  // ---------------------------------------------------------------- how much was read

  ghost predicate DistinctKeys(es: seq<Entry>) {
    forall i, j :: 0 <= i < j < |es| ==> es[i].key != es[j].key
  }

  lemma DistinctCons(e: Entry, es: seq<Entry>)
    ensures DistinctKeys([e] + es) <==> DistinctKeys(es) && forall x :: x in es ==> x.key != e.key
  {
    var all := [e] + es;
    assert all[0] == e && all[1..] == es;
    assert forall j :: 0 <= j < |es| ==> all[j + 1] == es[j];
  }

  /** The size of what was loaded never exceeds the bytes read, and equals them exactly when no key was
      repeated: a repeated key is read but not kept. */
  lemma {:induction false} LoadedSize(rest: Buffer, kv: seq<Entry>)
    requires ValidEntries(kv) && LoadAll(rest, kv).ok
    ensures Total(LoadAll(rest, kv).kv) <= Total(kv) + |rest|
    ensures Total(LoadAll(rest, kv).kv) == Total(kv) + |rest| <==>
      DistinctKeys(Accepted(rest, kv)) && forall e :: e in Accepted(rest, kv) ==> Lookup(kv, e.key).None?
    decreases |rest|
  {
    if rest != [] {
      var (e, rest') := ParsePair(rest).value;
      var kv' := AddSpec(kv, e).kv;
      var (more, all) := (Accepted(rest', kv'), Accepted(rest, kv));
      assert all == [e] + more && |rest| == e.Size() + |rest'|;
      AddKeepsValid(kv, e);
      InsertTotal(kv, e);
      LoadedSize(rest', kv');
      forall x | x in more
        ensures Lookup(kv', x.key)
          == if Lookup(kv, x.key).Some? then Lookup(kv, x.key) else if x.key == e.key then Some(e.value) else None
      {
        InsertLookup(kv, e, x.key);
      }
      DistinctCons(e, more);
    }
  }
}
