/** Physical key layout (internal/encoding): order-preserving integers, data keys, index keys. */
module Encoding {
  import opened ByteStrings

  const DATA_PREFIX: byte := 0x00
  const INDEX_PREFIX: byte := 0xFF
  const TWO32: nat := 0x1_0000_0000
  const TWO64: nat := 0x1_0000_0000_0000_0000

  datatype Result<+T> = Ok(value: T) | Malformed

  // ---------------------------------------------------------------- fixed-width integers

  function Pow256(w: nat): nat {
    if w == 0 then 1 else 256 * Pow256(w - 1)
  }

  /** Big-endian image of n in w bytes, higher bits dropped. */
  function BE(n: nat, w: nat): (b: Bytes)
    ensures |b| == w
  {
    if w == 0 then [] else BE(n / 256, w - 1) + [n % 256]
  }

  function FromBE(b: Bytes): nat {
    if |b| == 0 then 0 else 256 * FromBE(b[..|b| - 1]) + b[|b| - 1]
  }

  /** Little-endian image of n in w bytes, higher bits dropped. */
  function LE(n: nat, w: nat): (b: Bytes)
    ensures |b| == w
  {
    if w == 0 then [] else [n % 256] + LE(n / 256, w - 1)
  }

  function FromLE(b: Bytes): nat {
    if |b| == 0 then 0 else b[0] + 256 * FromLE(b[1..])
  }

  lemma {:induction false} FromBEofBE(n: nat, w: nat)
    requires n < Pow256(w)
    ensures FromBE(BE(n, w)) == n
  {
    if w > 0 {
      FromBEofBE(n / 256, w - 1);
      assert BE(n, w)[..w - 1] == BE(n / 256, w - 1);
    }
  }

  lemma {:induction false} BEofFromBE(b: Bytes)
    ensures FromBE(b) < Pow256(|b|) && BE(FromBE(b), |b|) == b
  {
    if |b| > 0 {
      BEofFromBE(b[..|b| - 1]);
      assert b == b[..|b| - 1] + [b[|b| - 1]];
    }
  }

  lemma {:induction false} FromLEofLE(n: nat, w: nat)
    requires n < Pow256(w)
    ensures FromLE(LE(n, w)) == n
  {
    if w > 0 {
      FromLEofLE(n / 256, w - 1);
      assert LE(n, w)[1..] == LE(n / 256, w - 1);
    }
  }

  lemma {:induction false} FromLEBound(b: Bytes)
    ensures FromLE(b) < Pow256(|b|)
  {
    if |b| > 0 { FromLEBound(b[1..]); }
  }

  /** Byte order of big-endian images is numeric order. */
  lemma {:induction false} BEOrder(a: nat, b: nat, w: nat)
    requires a < Pow256(w) && b < Pow256(w)
    ensures Lt(BE(a, w), BE(b, w)) <==> a < b
  {
    if w > 0 {
      BEOrder(a / 256, b / 256, w - 1);
      LtSnoc(BE(a / 256, w - 1), BE(b / 256, w - 1), a % 256, b % 256);
      FromBEofBE(a / 256, w - 1);
      FromBEofBE(b / 256, w - 1);
    }
  }

  datatype IntType = Int32 | Uint32 | Int64 | Uint64 {
    function Width(): nat { if Int32? || Uint32? then 4 else 8 }
    function Modulus(): nat { if Int32? || Uint32? then TWO32 else TWO64 }
    predicate Signed() { Int32? || Int64? }

    predicate InRange(v: int) {
      if Signed() then -(Modulus() / 2) <= v < Modulus() / 2 else 0 <= v < Modulus()
    }

    /** Go's uint32(v) / uint64(v): the two's complement bit pattern. */
    function ToBits(v: int): nat
      requires InRange(v)
    {
      if v < 0 then v + Modulus() else v
    }

    /** Go's int32(u) / int64(u). */
    function FromBits(u: nat): (v: int)
      requires u < Modulus()
      ensures InRange(v)
    {
      if Signed() && u >= Modulus() / 2 then u - Modulus() else u
    }

    /** u ^ (1 << (width-1)): exclusive or with the sign bit. */
    function FlipSign(u: nat): (r: nat)
      requires u < Modulus()
      ensures r < Modulus()
    {
      if u < Modulus() / 2 then u + Modulus() / 2 else u - Modulus() / 2
    }
  }

  lemma ModulusIsPow(t: IntType)
    ensures t.Modulus() == Pow256(t.Width())
  {
    assert Pow256(4) == TWO32;
    assert Pow256(8) == TWO64;
  }

  function EncodeOrdered(t: IntType, v: int): (b: Bytes)
    requires t.InRange(v)
  {
    BE(if t.Signed() then t.FlipSign(t.ToBits(v)) else v, t.Width())
  }

  function DecodeOrdered(t: IntType, b: Bytes): int
    requires |b| >= t.Width()
  {
    ModulusIsPow(t);
    BEofFromBE(b[..t.Width()]);
    var u := FromBE(b[..t.Width()]);
    if t.Signed() then t.FromBits(t.FlipSign(u)) else u
  }

  /** For each of the four integer types: encoding is undone by decoding (bytes behind the number
      are ignored), every string of the right width is an encoding, and byte order is numeric order. */
  lemma OrderedRoundTrip(t: IntType, v: int, rest: Bytes)
    requires t.InRange(v)
    ensures DecodeOrdered(t, EncodeOrdered(t, v) + rest) == v
  {
    ModulusIsPow(t);
    FromBEofBE(if t.Signed() then t.FlipSign(t.ToBits(v)) else v, t.Width());
    assert (EncodeOrdered(t, v) + rest)[..t.Width()] == EncodeOrdered(t, v);
  }

  lemma OrderedSurjective(t: IntType, b: Bytes)
    requires |b| == t.Width()
    ensures t.InRange(DecodeOrdered(t, b)) && EncodeOrdered(t, DecodeOrdered(t, b)) == b
  {
    ModulusIsPow(t);
    BEofFromBE(b);
    assert b[..t.Width()] == b;
  }

  lemma OrderedOrder(t: IntType, a: int, b: int)
    requires t.InRange(a) && t.InRange(b)
    ensures Lt(EncodeOrdered(t, a), EncodeOrdered(t, b)) <==> a < b
  {
    ModulusIsPow(t);
    BEOrder(if t.Signed() then t.FlipSign(t.ToBits(a)) else a,
            if t.Signed() then t.FlipSign(t.ToBits(b)) else b, t.Width());
  }

  // ---------------------------------------------------------------- unsigned LEB128

  /** binary.PutUvarint. */
  function PutUvarint(x: nat): (b: Bytes)
    ensures |b| > 0
  {
    if x < 128 then [x] else [x % 128 + 128] + PutUvarint(x / 128)
  }

  /** What binary.Uvarint returns: the value and the number of bytes read; n == 0 when the buffer
      is too short and n < 0 when the value overflows 64 bits. */
  datatype Varint = Varint(value: nat, n: int)

  const MAX_VARINT_LEN64: nat := 10

  /** binary.Uvarint with i bytes already consumed. */
  function UvarintAt(buf: Bytes, i: nat): (r: Varint)
    ensures r.n > 0 ==> i < r.n <= i + |buf|
    decreases |buf|
  {
    if |buf| == 0 then Varint(0, 0)
    else if i == MAX_VARINT_LEN64 then Varint(0, -(i + 1))
    else if buf[0] < 128 then
      if i == MAX_VARINT_LEN64 - 1 && buf[0] > 1 then Varint(0, -(i + 1)) else Varint(buf[0], i + 1)
    else
      var r := UvarintAt(buf[1..], i + 1);
      if r.n <= 0 then Varint(0, r.n) else Varint(buf[0] - 128 + 128 * r.value, r.n)
  }

  /** The largest value, plus one, that still fits when i bytes are consumed: 2^(64-7i). */
  function Room(i: nat): nat
    requires i <= 9
    decreases 9 - i
  {
    if i == 9 then 2 else 128 * Room(i + 1)
  }

  lemma RoomIsTwo64()
    ensures Room(0) == TWO64
  {
  }

  lemma {:induction false} UvarintOfPut(x: nat, rest: Bytes, i: nat)
    requires i <= 9 && x < Room(i)
    ensures UvarintAt(PutUvarint(x) + rest, i) == Varint(x, i + |PutUvarint(x)|)
    decreases 9 - i
  {
    if x >= 128 {
      UvarintOfPut(x / 128, rest, i + 1);
      assert (PutUvarint(x) + rest)[1..] == PutUvarint(x / 128) + rest;
    }
  }

  /** One byte more: a continuation byte in front of a value that was read. */
  lemma UvarintStep(buf: Bytes, i: nat)
    requires UvarintAt(buf, i).n > 0 && buf[0] >= 128
    ensures var r, q := UvarintAt(buf, i), UvarintAt(buf[1..], i + 1);
      && q.n == r.n > i + 1 && r.n - i <= |buf|
      && r.value / 128 == q.value && r.value % 128 == buf[0] as nat - 128
      && buf[..r.n - i] == [buf[0]] + buf[1..][..r.n - i - 1]
      && buf[r.n - i - 1] == buf[1..][r.n - i - 2]
  {
  }

  lemma PutStep(x: nat, b: byte)
    requires x % 128 == b as nat - 128 && b >= 128
    ensures x >= 128 ==> PutUvarint(x) == [b] + PutUvarint(x / 128)
    ensures x < 128 ==> |PutUvarint(x)| == 1
  {
  }

  /** A continuation byte in front does not change whether the form is the shortest. */
  lemma UvarintLonger(buf: Bytes, i: nat)
    requires UvarintAt(buf, i).n > 0 && buf[0] >= 128
    requires var q := UvarintAt(buf[1..], i + 1);
      buf[1..][..q.n - i - 1] == PutUvarint(q.value) <==> q.n - i - 1 == 1 || buf[1..][q.n - i - 2] != 0
    ensures var r := UvarintAt(buf, i);
      buf[..r.n - i] == PutUvarint(r.value) <==> buf[r.n - i - 1] != 0
  {
    var r, q := UvarintAt(buf, i), UvarintAt(buf[1..], i + 1);
    UvarintStep(buf, i);
    PutStep(r.value, buf[0]);
    if q.n == i + 2 { LastByteOfSingle(buf[1..], i + 1); }
    if q.value == 0 { ZeroValueEndsInZero(buf[1..], i + 1); }
    hide PutUvarint, UvarintAt;
    assert q.value > 0 ==> (buf[..r.n - i] == PutUvarint(r.value) <==> buf[1..][..r.n - i - 1] == PutUvarint(q.value));
  }

  /** A value that was read occupies its shortest form exactly when its last byte is not a
      padding zero. */
  lemma {:induction false} UvarintMinimal(buf: Bytes, i: nat)
    requires UvarintAt(buf, i).n > 0
    ensures var r := UvarintAt(buf, i);
      buf[..r.n - i] == PutUvarint(r.value) <==> r.n - i == 1 || buf[r.n - i - 1] != 0
    decreases |buf|
  {
    if buf[0] < 128 {
      assert buf[..1] == [buf[0]];
    } else {
      UvarintStep(buf, i);
      UvarintMinimal(buf[1..], i + 1);
      UvarintLonger(buf, i);
    }
  }

  lemma LastByteOfSingle(buf: Bytes, i: nat)
    requires UvarintAt(buf, i).n == i + 1
    ensures buf[0] == UvarintAt(buf, i).value
  {
  }

  lemma {:induction false} ZeroValueEndsInZero(buf: Bytes, i: nat)
    requires UvarintAt(buf, i).n > 0 && UvarintAt(buf, i).value == 0
    ensures buf[UvarintAt(buf, i).n - i - 1] == 0
    decreases |buf|
  {
    if buf[0] >= 128 {
      ZeroValueEndsInZero(buf[1..], i + 1);
    }
  }

  // ---------------------------------------------------------------- data keys

  function DataPrefix(tableHash: nat): (b: Bytes)
    ensures |b| == 9
  {
    [DATA_PREFIX] + BE(tableHash, 8)
  }

  function DataKey(tableHash: nat, pk: Bytes): (b: Bytes)
    ensures |b| == 9 + |pk| && b[9..] == pk && DataPrefix(tableHash) <= b
  {
    DataPrefix(tableHash) + pk
  }

  /** EncodeKey: a buffer of exactly the right size, filled by position. */
  method EncodeKey(tableHash: nat, pk: Bytes) returns (buf: array<byte>)
    requires tableHash < TWO64
    ensures fresh(buf) && buf[..] == DataKey(tableHash, pk)
  {
    buf := new byte[1 + 8 + |pk|](_ => 0);
    buf[0] := DATA_PREFIX;
    var h := BE(tableHash, 8);
    forall i | 0 <= i < 8 { buf[1 + i] := h[i]; }
    forall i | 0 <= i < |pk| { buf[9 + i] := pk[i]; }
    assert buf[1..9] == h && buf[9..] == pk;
    assert buf[..] == [buf[0]] + buf[1..9] + buf[9..];
  }

  function DecodeKey(raw: Bytes): Result<(nat, Bytes)> {
    if |raw| < 9 || raw[0] != DATA_PREFIX then Malformed else Ok((FromBE(raw[1..9]), raw[9..]))
  }

  /** DecodeKey accepts exactly the strings EncodeKey produces, and inverts it. */
  lemma DataKeyRoundTrip(tableHash: nat, pk: Bytes)
    requires tableHash < TWO64
    ensures DecodeKey(DataKey(tableHash, pk)) == Ok((tableHash, pk))
  {
    ModulusIsPow(Uint64);
    FromBEofBE(tableHash, 8);
    assert DataKey(tableHash, pk)[1..9] == BE(tableHash, 8);
  }

  lemma DataKeyDecoded(raw: Bytes)
    requires DecodeKey(raw).Ok?
    ensures var (h, pk) := DecodeKey(raw).value; h < TWO64 && raw == DataKey(h, pk)
  {
    ModulusIsPow(Uint64);
    BEofFromBE(raw[1..9]);
    assert raw == [raw[0]] + raw[1..9] + raw[9..];
  }

  /** A key lies in the scan range of a table exactly when it is a data key of that table. */
  lemma DataPrefixIff(tableHash: nat, k: Bytes)
    ensures DataPrefix(tableHash) <= k <==> |k| >= 9 && k == DataKey(tableHash, k[9..])
  {
    if DataPrefix(tableHash) <= k {
      assert k == k[..9] + k[9..];
    }
  }

  lemma DataPrefixInjective(h1: nat, h2: nat, k: Bytes)
    requires h1 < TWO64 && h2 < TWO64
    requires DataPrefix(h1) <= k && DataPrefix(h2) <= k
    ensures h1 == h2
  {
    DataPrefixIff(h1, k);
    DataPrefixIff(h2, k);
    DataKeyRoundTrip(h1, k[9..]);
    DataKeyRoundTrip(h2, k[9..]);
  }

  lemma DataKeyOrder(tableHash: nat, a: Bytes, b: Bytes)
    ensures Lt(DataKey(tableHash, a), DataKey(tableHash, b)) <==> Lt(a, b)
  {
    LtCancel(DataPrefix(tableHash), a, b);
  }

  // ---------------------------------------------------------------- index keys

  function TablePrefix(tableHash: nat): (b: Bytes)
    ensures |b| == 9
  {
    [INDEX_PREFIX] + BE(tableHash, 8)
  }

  /** byte(fieldNum): Go keeps the low eight bits. */
  function FieldByte(fieldNum: int): byte {
    fieldNum % 256
  }

  function IndexPrefix(tableHash: nat, fieldNum: int, value: Bytes): (b: Bytes)
    ensures TablePrefix(tableHash) <= b
  {
    TablePrefix(tableHash) + ([FieldByte(fieldNum)] + PutUvarint(|value|) + value)
  }

  function IndexKey(tableHash: nat, fieldNum: int, value: Bytes, pk: Bytes): (b: Bytes)
    ensures TablePrefix(tableHash) <= b
  {
    IndexPrefix(tableHash, fieldNum, value) + pk
  }

  function UniqueIndexKey(tableHash: nat, fieldNum: int, value: Bytes): (b: Bytes)
    ensures TablePrefix(tableHash) <= b
  {
    IndexPrefix(tableHash, fieldNum, value)
  }

  method EncodeIndexPrefix(tableHash: nat, fieldNum: int, value: Bytes) returns (buf: Bytes)
    requires tableHash < TWO64
    ensures buf == IndexPrefix(tableHash, fieldNum, value)
  {
    buf := [];
    buf := buf + [INDEX_PREFIX];
    buf := buf + BE(tableHash, 8);
    buf := buf + [FieldByte(fieldNum)];
    buf := buf + PutUvarint(|value|);
    buf := buf + value;
  }

  method EncodeIndexKey(tableHash: nat, fieldNum: int, value: Bytes, pk: Bytes) returns (buf: Bytes)
    requires tableHash < TWO64
    ensures buf == IndexKey(tableHash, fieldNum, value, pk)
  {
    buf := [];
    buf := buf + [INDEX_PREFIX];
    buf := buf + BE(tableHash, 8);
    buf := buf + [FieldByte(fieldNum)];
    buf := buf + PutUvarint(|value|);
    buf := buf + value;
    buf := buf + pk;
  }

  datatype IndexParts = IndexParts(tableHash: nat, fieldNum: nat, value: Bytes, pk: Bytes)

  function DecodeIndex(raw: Bytes): Result<IndexParts> {
    if |raw| < 10 || raw[0] != INDEX_PREFIX then Malformed
    else
      var v := UvarintAt(raw[10..], 0);
      if v.n <= 0 then Malformed
      else
        var pos := 10 + v.n;
        if |raw| - pos < v.value then Malformed
        else Ok(IndexParts(FromBE(raw[1..9]), raw[9], raw[pos..pos + v.value], raw[pos + v.value..]))
  }

  /** DecodeIndexKey: total on arbitrary bytes, every slice in range. */
  method DecodeIndexKey(raw: Bytes) returns (r: Result<IndexParts>)
    ensures r == DecodeIndex(raw)
  {
    if |raw| < 10 || raw[0] != INDEX_PREFIX { return Malformed; }
    var tableHash := FromBE(raw[1..9]);
    var pos := 9;
    var fieldNum := raw[pos];
    pos := pos + 1;
    var v := UvarintAt(raw[pos..], 0);
    if v.n <= 0 { return Malformed; }
    pos := pos + v.n;
    if |raw| - pos < v.value { return Malformed; }
    var value := raw[pos..pos + v.value];
    var pk := raw[pos + v.value..];
    return Ok(IndexParts(tableHash, fieldNum, value, pk));
  }

  /** DecodeIndexKey inverts EncodeIndexKey; the field number comes back as its low byte. */
  lemma IndexKeyRoundTrip(tableHash: nat, fieldNum: int, value: Bytes, pk: Bytes)
    requires tableHash < TWO64 && |value| < TWO64
    ensures DecodeIndex(IndexKey(tableHash, fieldNum, value, pk))
         == Ok(IndexParts(tableHash, FieldByte(fieldNum), value, pk))
  {
    hide BE, FromBE, PutUvarint, UvarintAt;
    var raw := IndexKey(tableHash, fieldNum, value, pk);
    ModulusIsPow(Uint64);
    FromBEofBE(tableHash, 8);
    RoomIsTwo64();
    UvarintOfPut(|value|, value + pk, 0);
    assert raw[1..9] == BE(tableHash, 8);
    assert raw[10..] == PutUvarint(|value|) + (value + pk);
    var pos := 10 + |PutUvarint(|value|)|;
    assert raw[pos..] == value + pk;
    assert raw[pos..pos + |value|] == value;
    assert raw[pos + |value|..] == pk;
  }

  /** An index key starts with the prefix of (table, field, value) exactly when it belongs to that
      table, field and value: no value's prefix reaches into another value's entries. */
  lemma IndexPrefixIff(h1: nat, f1: int, v1: Bytes, h2: nat, f2: int, v2: Bytes, pk: Bytes)
    requires h1 < TWO64 && |v1| < TWO64 && h2 < TWO64 && |v2| < TWO64
    ensures IndexPrefix(h1, f1, v1) <= IndexKey(h2, f2, v2, pk)
       <==> h1 == h2 && FieldByte(f1) == FieldByte(f2) && v1 == v2
  {
    var raw := IndexKey(h2, f2, v2, pk);
    if IndexPrefix(h1, f1, v1) <= raw {
      var rest := raw[|IndexPrefix(h1, f1, v1)|..];
      assert raw == IndexKey(h1, f1, v1, rest);
      IndexKeyRoundTrip(h1, f1, v1, rest);
      IndexKeyRoundTrip(h2, f2, v2, pk);
    }
  }

  lemma MiddleDecides(a: Bytes, x: Bytes, y: Bytes, c: Bytes)
    ensures a + x + c == a + y + c <==> x == y
  {
    if a + x + c == a + y + c {
      assert x == (a + x + c)[|a|..|a| + |x|];
      assert y == (a + y + c)[|a|..|a| + |y|];
    }
  }

  /** The five parts a decodable string is cut into. */
  lemma DecodedShape(raw: Bytes)
    requires DecodeIndex(raw).Ok?
    ensures var p := DecodeIndex(raw).value;
      var v := UvarintAt(raw[10..], 0);
      && |p.value| == v.value
      && raw == (TablePrefix(p.tableHash) + [FieldByte(p.fieldNum)]) + raw[10..][..v.n] + (p.value + p.pk)
  {
    hide PutUvarint, UvarintAt;
    var p := DecodeIndex(raw).value;
    var n := UvarintAt(raw[10..], 0).n;
    ModulusIsPow(Uint64);
    BEofFromBE(raw[1..9]);
    assert raw[..10] == [raw[0]] + raw[1..9] + [raw[9]];
    assert raw[10..][..n] == raw[10..10 + n];
    assert raw[10 + n..] == p.value + p.pk;
    assert raw == raw[..10] + raw[10..10 + n] + raw[10 + n..];
  }

  /** Which decodable strings are encodings: those whose length field is not padded. */
  lemma IndexKeyDecoded(raw: Bytes)
    requires DecodeIndex(raw).Ok?
    ensures var p := DecodeIndex(raw).value;
      var n := UvarintAt(raw[10..], 0).n;
      (raw == IndexKey(p.tableHash, p.fieldNum, p.value, p.pk)) <==> (n == 1 || raw[9 + n] != 0)
  {
    var p := DecodeIndex(raw).value;
    var v := UvarintAt(raw[10..], 0);
    var head := TablePrefix(p.tableHash) + [FieldByte(p.fieldNum)];
    DecodedShape(raw);
    assert IndexKey(p.tableHash, p.fieldNum, p.value, p.pk)
        == head + PutUvarint(v.value) + (p.value + p.pk);
    MiddleDecides(head, raw[10..][..v.n], PutUvarint(v.value), p.value + p.pk);
    UvarintMinimal(raw[10..], 0);
  }

  /** A string DecodeIndexKey accepts although EncodeIndexKey never writes it. */
  lemma PaddedLengthAccepted()
    ensures var raw := TablePrefix(7) + [3, 0x81, 0x00, 65];
      DecodeIndex(raw) == Ok(IndexParts(7, 3, [65], [])) && raw != IndexKey(7, 3, [65], [])
  {
    var raw := TablePrefix(7) + [3, 0x81, 0x00, 65];
    ModulusIsPow(Uint64);
    FromBEofBE(7, 8);
    assert raw[1..9] == BE(7, 8);
    assert raw[10..] == [0x81, 0x00, 65];
    assert raw[10..][1..] == [0x00, 65];
    assert UvarintAt([0x00, 65], 1) == Varint(0, 2);
    assert UvarintAt(raw[10..], 0) == Varint(1, 2);
    assert raw[12..13] == [65] && raw[13..] == [];
    assert |IndexKey(7, 3, [65], [])| == 12;
  }

  lemma IndexKeyOrder(tableHash: nat, fieldNum: int, value: Bytes, a: Bytes, b: Bytes)
    ensures Lt(IndexKey(tableHash, fieldNum, value, a), IndexKey(tableHash, fieldNum, value, b)) <==> Lt(a, b)
  {
    LtCancel(IndexPrefix(tableHash, fieldNum, value), a, b);
  }

  lemma TablePrefixInjective(h1: nat, h2: nat, k: Bytes)
    requires h1 < TWO64 && h2 < TWO64
    requires TablePrefix(h1) <= k && TablePrefix(h2) <= k
    ensures h1 == h2
  {
    hide BE, FromBE;
    ModulusIsPow(Uint64);
    FromBEofBE(h1, 8);
    FromBEofBE(h2, 8);
    assert k[1..9] == TablePrefix(h1)[1..9] == BE(h1, 8);
    assert k[1..9] == TablePrefix(h2)[1..9] == BE(h2, 8);
  }

  /** Physical scan order of one table is the numeric order of its integer primary keys. */
  lemma ScanOrderIsNumeric(t: IntType, tableHash: nat, fieldNum: int, value: Bytes, a: int, b: int)
    requires t.InRange(a) && t.InRange(b)
    ensures Lt(DataKey(tableHash, EncodeOrdered(t, a)), DataKey(tableHash, EncodeOrdered(t, b))) <==> a < b
    ensures var ka := IndexKey(tableHash, fieldNum, value, EncodeOrdered(t, a));
      var kb := IndexKey(tableHash, fieldNum, value, EncodeOrdered(t, b));
      Lt(ka, kb) <==> a < b
  {
    OrderedOrder(t, a, b);
    DataKeyOrder(tableHash, EncodeOrdered(t, a), EncodeOrdered(t, b));
    IndexKeyOrder(tableHash, fieldNum, value, EncodeOrdered(t, a), EncodeOrdered(t, b));
  }
}
