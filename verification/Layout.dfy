/** The bytes themselves: integers, keys and rows spelled out byte by byte, as other tools that read the
    database find them (internal/encoding/encode.go, internal/testmodels/User_sqlitex.go). */
module Layout {
  import opened ByteStrings
  import opened Encoding
  import opened Schema
  import opened Serializer

  // ---------------------------------------------------------------- order

  /** bytes.Compare: the first differing byte decides, and a proper prefix comes first. */
  lemma {:induction false} OrderOfBytes(a: Bytes, b: Bytes)
    ensures Lt(a, b) <==> (|a| < |b| && a == b[..|a|]) || exists n :: DifferAt(a, b, n) && a[n] < b[n]
  {
    if |a| > 0 && |b| > 0 && a[0] == b[0] {
      OrderOfBytes(a[1..], b[1..]);
      SameFirst(a, b);
    } else if |a| > 0 && |b| > 0 {
      assert DifferAt(a, b, 0);
    }
  }

  /** Behind an equal first byte nothing changes but the positions. */
  lemma SameFirst(a: Bytes, b: Bytes)
    requires |a| > 0 && |b| > 0 && a[0] == b[0]
    ensures (exists n :: DifferAt(a, b, n) && a[n] < b[n]) <==> (exists n :: DifferAt(a[1..], b[1..], n) && a[1..][n] < b[1..][n])
    ensures |a| < |b| ==> (a == b[..|a|] <==> a[1..] == b[1..][..|a| - 1])
  {
    if n :| DifferAt(a, b, n) && a[n] < b[n] {
      LaterByOne(a, b, n - 1);
      assert DifferAt(a[1..], b[1..], n - 1) && a[1..][n - 1] < b[1..][n - 1];
    }
    if n :| DifferAt(a[1..], b[1..], n) && a[1..][n] < b[1..][n] {
      LaterByOne(a, b, n);
      assert DifferAt(a, b, n + 1);
    }
    if |a| < |b| { assert b[..|a|] == [b[0]] + b[1..][..|a| - 1] && a == [a[0]] + a[1..]; }
  }

  lemma LaterByOne(a: Bytes, b: Bytes, n: nat)
    requires |a| > 0 && |b| > 0 && a[0] == b[0]
    ensures DifferAt(a, b, n + 1) <==> DifferAt(a[1..], b[1..], n)
  {
    if n + 1 < |a| && n + 1 < |b| {
      assert a[..n + 1] == [a[0]] + a[1..][..n] && b[..n + 1] == [b[0]] + b[1..][..n];
    }
  }

  predicate DifferAt(a: Bytes, b: Bytes, n: int) {
    0 <= n < |a| && n < |b| && a[..n] == b[..n] && a[n] != b[n]
  }

  // ---------------------------------------------------------------- integers

  /** Four bytes, least significant first. */
  function U32(n: nat): Bytes {
    [n % 256, n / 256 % 256, n / 256 / 256 % 256, n / 256 / 256 / 256 % 256]
  }

  /** Eight bytes, least significant first. */
  function U64(n: nat): (b: Bytes)
    ensures |b| == 8
  {
    U32(n) + U32(n / 256 / 256 / 256 / 256)
  }

  function Backwards(b: Bytes): (r: Bytes)
    ensures |r| == |b| && forall i :: 0 <= i < |b| ==> r[i] == b[|b| - 1 - i]
  {
    seq(|b|, i requires 0 <= i < |b| => b[|b| - 1 - i])
  }

  lemma LEStep(n: nat, w: nat)
    ensures LE(n, w + 1) == [n % 256] + LE(n / 256, w)
    ensures BE(n, w + 1) == BE(n / 256, w) + [n % 256]
    ensures LE(n, 0) == [] == BE(n, 0)
  {
  }

  lemma FourBytes(n: nat, w: nat)
    ensures LE(n, w + 4) == U32(n) + LE(n / 256 / 256 / 256 / 256, w)
    ensures BE(n, w + 4) == BE(n / 256 / 256 / 256 / 256, w) + Backwards(U32(n))
  {
    hide LE, BE;
    var a, b, c := n / 256, n / 256 / 256, n / 256 / 256 / 256;
    LEStep(n, w + 3);
    LEStep(a, w + 2);
    LEStep(b, w + 1);
    LEStep(c, w);
    Joined(n % 256, a % 256, b % 256, c % 256, LE(c / 256, w), BE(c / 256, w));
  }

  lemma Joined(a: byte, b: byte, c: byte, d: byte, rest: Bytes, front: Bytes)
    ensures [a] + ([b] + ([c] + ([d] + rest))) == [a, b, c, d] + rest
    ensures front + [d] + [c] + [b] + [a] == front + Backwards([a, b, c, d])
  {
    assert Backwards([a, b, c, d]) == [d, c, b, a];
  }

  /** The integers in rows and index values are little endian, those in keys big endian. */
  lemma FixedWidth(n: nat)
    ensures LE(n, 4) == U32(n) && LE(n, 8) == U64(n)
    ensures BE(n, 4) == Backwards(U32(n)) && BE(n, 8) == Backwards(U64(n))
  {
    var hi := n / 256 / 256 / 256 / 256;
    FourBytes(n, 0);
    FourBytes(n, 4);
    FourBytes(hi, 0);
    hide LE, BE, U32;
    LEStep(n, 0);
    LEStep(hi, 0);
    LEStep(hi / 256 / 256 / 256 / 256, 0);
    assert Backwards(U64(n)) == Backwards(U32(hi)) + Backwards(U32(n));
  }

  /** Two's complement. */
  function Bits64(v: int): nat
    requires -0x8000_0000_0000_0000 <= v < 0x8000_0000_0000_0000
  {
    if v < 0 then v + 0x1_0000_0000_0000_0000 else v
  }

  function Bits32(v: int): nat
    requires -0x8000_0000 <= v < 0x8000_0000
  {
    if v < 0 then v + 0x1_0000_0000 else v
  }

  /** Integers in primary keys: big endian, signed ones moved up by half the range. */
  lemma OrderedBytes(v: int)
    ensures Int64.InRange(v) ==> EncodeOrdered(Int64, v) == Backwards(U64(v + 0x8000_0000_0000_0000))
    ensures Int32.InRange(v) ==> EncodeOrdered(Int32, v) == Backwards(U32(v + 0x8000_0000))
    ensures Uint64.InRange(v) ==> EncodeOrdered(Uint64, v) == Backwards(U64(v))
    ensures Uint32.InRange(v) ==> EncodeOrdered(Uint32, v) == Backwards(U32(v))
  {
    hide EncodeOrdered, BE, U32, U64, Backwards;
    if Int64.InRange(v) { OrderedIsBigEndian(Int64, v); FixedWidth(v + 0x8000_0000_0000_0000); }
    if Int32.InRange(v) { OrderedIsBigEndian(Int32, v); FixedWidth(v + 0x8000_0000); }
    if Uint64.InRange(v) { OrderedIsBigEndian(Uint64, v); FixedWidth(v); }
    if Uint32.InRange(v) { OrderedIsBigEndian(Uint32, v); FixedWidth(v); }
  }

  lemma OrderedIsBigEndian(k: IntType, v: int)
    requires k.InRange(v)
    ensures k.Signed() ==> EncodeOrdered(k, v) == BE(v + k.Modulus() / 2, k.Width())
    ensures !k.Signed() ==> EncodeOrdered(k, v) == BE(v, k.Width())
  {
    hide BE;
  }

  // ---------------------------------------------------------------- keys

  /** Seven bits at a time, least significant first, the high bit set on all bytes but the last
      (section 7.6 of the DWARF 5 standard). */
  function Septets(u: Bytes): int {
    if |u| == 0 then 0 else u[0] % 128 + 128 * Septets(u[1..])
  }

  lemma {:induction false} UvarintBytes(x: nat)
    ensures var u := PutUvarint(x);
      && Septets(u) == x && u[|u| - 1] < 128 && (|u| > 1 ==> u[|u| - 1] != 0)
      && forall i :: 0 <= i < |u| - 1 ==> u[i] >= 128
  {
    if x >= 128 {
      UvarintBytes(x / 128);
      assert PutUvarint(x)[1..] == PutUvarint(x / 128);
    } else {
      assert PutUvarint(x)[1..] == [];
    }
  }

  /** A data key: a zero byte, the table hash in eight bytes, most significant first, the primary key. */
  lemma DataKeyBytes(h: nat, pk: Bytes)
    ensures DataKey(h, pk) == [0] + Backwards(U64(h)) + pk
  {
    FixedWidth(h);
  }

  lemma Flat(a: Bytes, b: Bytes, c: Bytes, d: Bytes, e: Bytes)
    ensures (a + b) + (c + d + e) == a + b + c + d + e
  {
  }

  /** An index key: a byte of ones, the table hash, the field number's low byte, the length of the value,
      the value, and in a normal index the primary key. */
  lemma IndexKeyBytes(h: nat, fieldNum: int, value: Bytes, pk: Bytes)
    ensures var head := [255] + Backwards(U64(h)) + [fieldNum % 256] + PutUvarint(|value|) + value;
      && IndexPrefix(h, fieldNum, value) == head
      && UniqueIndexKey(h, fieldNum, value) == head
      && IndexKey(h, fieldNum, value, pk) == head + pk
  {
    hide BE, U64, PutUvarint;
    FixedWidth(h);
    Flat([255], Backwards(U64(h)), [fieldNum % 256], PutUvarint(|value|), value);
  }

  /** Primary keys: integers as above, strings and bytes as they are, bools as words. */
  lemma PrimaryKeyBytes(v: Val)
    ensures v.IntV? && Int64.InRange(v.i) ==> EncodePk(TInt(Int64), v) == Backwards(U64(v.i + 0x8000_0000_0000_0000))
    ensures v.IntV? && Int32.InRange(v.i) ==> EncodePk(TInt(Int32), v) == Backwards(U32(v.i + 0x8000_0000))
    ensures v.IntV? && Uint64.InRange(v.i) ==> EncodePk(TInt(Uint64), v) == Backwards(U64(v.i))
    ensures v.IntV? && Uint32.InRange(v.i) ==> EncodePk(TInt(Uint32), v) == Backwards(U32(v.i))
    ensures v.BytesV? && |v.s| < TWO32 ==> EncodePk(TString, v) == EncodePk(TBytes, v) == v.s
    ensures v.BoolV? ==> EncodePk(TBool, v) == if v.b then [116, 114, 117, 101] else [102, 97, 108, 115, 101]
  {
    hide EncodeOrdered, U32, U64;
    if v.IntV? { OrderedBytes(v.i); }
  }

  /** Values in index keys: signed integers little endian, strings and bytes as they are, unsigned
      integers in decimal digits, bools as words. */
  lemma IndexValueBytes(v: Val)
    ensures v.IntV? && Int64.InRange(v.i) ==> EncodeIndexValue(TInt(Int64), v) == U64(Bits64(v.i))
    ensures v.IntV? && Int32.InRange(v.i) ==> EncodeIndexValue(TInt(Int32), v) == U32(Bits32(v.i))
    ensures v.BytesV? && |v.s| < TWO32 ==> EncodeIndexValue(TString, v) == EncodeIndexValue(TBytes, v) == v.s
    ensures v.BoolV? ==> EncodeIndexValue(TBool, v) == if v.b then [116, 114, 117, 101] else [102, 97, 108, 115, 101]
    ensures v.IntV? && Uint64.InRange(v.i) ==> IsDecimal(EncodeIndexValue(TInt(Uint64), v), v.i)
    ensures v.IntV? && Uint32.InRange(v.i) ==> IsDecimal(EncodeIndexValue(TInt(Uint32), v), v.i)
  {
    hide LE, U32, U64, Decimal, IsDecimal;
    if v.IntV? && Int64.InRange(v.i) { FixedWidth(Bits64(v.i)); }
    if v.IntV? && Int32.InRange(v.i) { FixedWidth(Bits32(v.i)); }
    if v.IntV? && v.i >= 0 { DecimalDigits(v.i); }
  }

  /** The decimal digits of a number, without leading zeros. */
  predicate IsDecimal(b: Bytes, n: int) {
    && |b| > 0 && (|b| > 1 ==> b[0] != 48) && (forall i :: 0 <= i < |b| ==> 48 <= b[i] <= 57)
    && FromDecimal(b) == n
  }

  lemma {:induction false} DecimalDigits(n: nat)
    ensures IsDecimal(Decimal(n), n)
    ensures n > 0 ==> Decimal(n)[0] != 48
  {
    FromDecimalOfDecimal(n);
    if n >= 10 { DecimalDigits(n / 10); }
  }

  /** Reading a length, m bytes with the high bit set before the first without: too short a buffer, more
      than ten bytes or a tenth above one is an error; what is read is the bytes seven bits at a time. */
  lemma {:induction false} UvarintRead(buf: Bytes, i: nat, m: nat)
    requires m <= |buf| && i <= 10 && (forall j :: 0 <= j < m ==> buf[j] >= 128) && (m < |buf| ==> buf[m] < 128)
    ensures UvarintAt(buf, i).n
         == if i + m > 9 && |buf| > 10 - i then -11
            else if m == |buf| then 0
            else if i + m == 9 && buf[m] > 1 then -10
            else i + m + 1
    ensures UvarintAt(buf, i).n > 0 ==> UvarintAt(buf, i).value == Septets(buf[..m + 1])
    decreases m
  {
    if m > 0 && i < 10 {
      UvarintRead(buf[1..], i + 1, m - 1);
      if m < |buf| { assert buf[..m + 1][1..] == buf[1..][..m]; }
    } else if m < |buf| {
      assert buf[..1][1..] == [];
    }
  }

  /** Which strings are index keys, and how they are taken apart: a byte of ones, eight bytes of hash, a
      field byte, a length, and at least as many bytes as it says. */
  lemma IndexKeyRead(raw: Bytes)
    ensures DecodeIndex(raw).Ok? <==>
      && |raw| >= 10 && raw[0] == 255
      && var v := UvarintAt(raw[10..], 0); v.n > 0 && |raw| >= 10 + v.n + v.value
    ensures DecodeIndex(raw).Ok? ==>
      var v, p := UvarintAt(raw[10..], 0), DecodeIndex(raw).value;
      && raw[1..9] == Backwards(U64(p.tableHash)) && p.fieldNum == raw[9]
      && p.value == raw[10 + v.n..10 + v.n + v.value] && p.pk == raw[10 + v.n + v.value..]
  {
    hide BE, FromBE, UvarintAt, U64;
    if |raw| >= 10 {
      FixedWidth(FromBE(raw[1..9]));
      BEofFromBE(raw[1..9]);
    }
  }

  // ---------------------------------------------------------------- rows

  /** A string or an uncompressed []byte field: its length in four bytes, and itself. */
  function Sized(s: Bytes): (b: Bytes)
    ensures |b| == 4 + |s|
  {
    U32(|s|) + s
  }

  /** A compressed field: stored length, original length, and whichever of the compressed and the
      original form is stored: the compressed one only if it is shorter. */
  function Packed(z: Zstd, s: Bytes): Bytes {
    var c := z.compress(s);
    if |c| < |s| then U32(|c|) + U32(|s|) + c else U32(|s|) + U32(|s|) + s
  }

  /** The bytes of one field. */
  lemma FieldBytes(z: Zstd, f: Field, v: Val)
    requires ValOk(f.typ, v)
    ensures f.typ == TBool ==> EncodeField(z, f, v) == if v.b then [1] else [0]
    ensures f.typ == TInt(Int64) ==> EncodeField(z, f, v) == U64(Bits64(v.i))
    ensures f.typ == TInt(Int32) ==> EncodeField(z, f, v) == U32(Bits32(v.i))
    ensures f.typ == TInt(Uint64) ==> EncodeField(z, f, v) == U64(v.i)
    ensures f.typ == TInt(Uint32) ==> EncodeField(z, f, v) == U32(v.i)
    ensures f.typ.VarLen() && !f.compress ==> EncodeField(z, f, v) == Sized(v.s)
    ensures f.typ.VarLen() && f.compress ==> EncodeField(z, f, v) == Packed(z, v.s)
  {
    hide LE, U32, U64;
    if f.typ.TInt? {
      FixedWidth(f.typ.kind.ToBits(v.i));
    } else if f.typ.VarLen() {
      FixedWidth(|v.s|);
      FixedWidth(|z.compress(v.s)|);
    }
  }

  /** Fields follow each other in declaration order, behind the expiry if the table has a lifetime; zeros
      fill the buffer up to its size. */
  lemma RowBytes(z: Zstd, t: Table, row: Row)
    requires t.RecordOk(row.rec) && Int64.InRange(row.expiresAt)
    ensures var head := if t.ttl != 0 then U64(Bits64(row.expiresAt)) else [];
      var body := head + EncodeUpTo(z, t.fields, row.rec, |t.fields|);
      && body <= Image(z, t, row)
      && forall i :: |body| <= i < |Image(z, t, row)| ==> Image(z, t, row)[i] == 0
    ensures EncodeUpTo(z, t.fields, row.rec, 0) == []
    ensures forall n :: 0 <= n < |t.fields| ==>
      EncodeUpTo(z, t.fields, row.rec, n + 1)
        == EncodeUpTo(z, t.fields, row.rec, n) + EncodeField(z, t.fields[n], row.rec[n])
  {
    hide LE, U64, EncodeField;
    FixedWidth(Bits64(row.expiresAt));
  }

  /** The first n + 1 fields in terms of the first n. */
  lemma NextField(z: Zstd, fields: seq<Field>, rec: Record, n: nat)
    requires Aligned(fields, rec) && n < |fields|
    ensures EncodeUpTo(z, fields, rec, 0) == []
    ensures EncodeUpTo(z, fields, rec, n + 1) == EncodeUpTo(z, fields, rec, n) + EncodeField(z, fields[n], rec[n])
  {
  }

  predicate LooksLikeUser(fields: seq<Field>) {
    && |fields| == 6
    && fields[0].typ == fields[3].typ == TInt(Int64) && fields[4].typ == TBool
    && fields[1].typ == fields[2].typ == fields[5].typ == TString
    && !fields[0].compress && !fields[1].compress && !fields[2].compress && !fields[3].compress && !fields[4].compress
    && fields[5].compress
  }

  lemma FirstThree(z: Zstd, fields: seq<Field>, rec: Record)
    requires LooksLikeUser(fields) && Aligned(fields, rec)
    ensures EncodeUpTo(z, fields, rec, 3) == U64(Bits64(rec[0].i)) + Sized(rec[1].s) + Sized(rec[2].s)
  {
    FieldBytes(z, fields[0], rec[0]);
    FieldBytes(z, fields[1], rec[1]);
    FieldBytes(z, fields[2], rec[2]);
    hide EncodeUpTo, EncodeField, U64, Sized;
    NextField(z, fields, rec, 0);
    NextField(z, fields, rec, 1);
    NextField(z, fields, rec, 2);
  }

  lemma LastThree(z: Zstd, fields: seq<Field>, rec: Record)
    requires LooksLikeUser(fields) && Aligned(fields, rec)
    ensures EncodeUpTo(z, fields, rec, 6)
      == EncodeUpTo(z, fields, rec, 3) + U64(Bits64(rec[3].i)) + [if rec[4].b then 1 else 0] + Packed(z, rec[5].s)
  {
    FieldBytes(z, fields[3], rec[3]);
    FieldBytes(z, fields[4], rec[4]);
    FieldBytes(z, fields[5], rec[5]);
    hide EncodeUpTo, EncodeField, U64, Packed;
    NextField(z, fields, rec, 3);
    NextField(z, fields, rec, 4);
    NextField(z, fields, rec, 5);
  }

  lemma UserSize(fields: seq<Field>, rec: Record)
    requires LooksLikeUser(fields) && Aligned(fields, rec)
    ensures MinSize(fields) + VarSizeUpTo(fields, rec, |fields|)
      == 25 + (4 + |rec[1].s|) + (4 + |rec[2].s|) + (4 + |rec[5].s|)
  {
    hide MinSizeUpTo, VarSizeUpTo;
    Sizes(fields, rec);
    assert MinSizeUpTo(fields, 3) == 8 && VarSizeUpTo(fields, rec, 3) == 8 + |rec[1].s| + |rec[2].s|;
  }

  lemma UserShape(z: Zstd, t: Table, rec: Record)
    requires LooksLikeUser(t.fields) && t.ttl == 0 && t.RecordOk(rec)
    ensures SizeOf(t, rec) == 25 + (4 + |rec[1].s|) + (4 + |rec[2].s|) + (4 + |rec[5].s|)
    ensures U64(Bits64(rec[0].i)) + Sized(rec[1].s) + Sized(rec[2].s) + U64(Bits64(rec[3].i)) + [if rec[4].b then 1 else 0]
      + Packed(z, rec[5].s) <= Image(z, t, Row(rec, 0))
  {
    hide Image, EncodeField, EncodeUpTo, MinSize, VarSizeUpTo, U64, Sized, Packed;
    UserSize(t.fields, rec);
    FirstThree(z, t.fields, rec);
    LastThree(z, t.fields, rec);
    RowBytes(z, t, Row(rec, 0));
  }

  lemma UserFields()
    ensures LooksLikeUser(USER.fields) && USER.ttl == 0
  {
  }

  /** The generated User: its size and its bytes, field by field. */
  lemma UserBytes(z: Zstd, id: int, name: Bytes, email: Bytes, created: int, active: bool, bio: Bytes)
    requires Int64.InRange(id) && Int64.InRange(created) && |name| < TWO32 && |email| < TWO32 && |bio| < TWO32
    ensures var rec := [IntV(id), BytesV(name), BytesV(email), IntV(created), BoolV(active), BytesV(bio)];
      && USER.RecordOk(rec)
      && SizeOf(USER, rec) == 25 + (4 + |name|) + (4 + |email|) + (4 + |bio|)
      && U64(Bits64(id)) + Sized(name) + Sized(email) + U64(Bits64(created)) + [if active then 1 else 0] + Packed(z, bio)
         <= Image(z, USER, Row(rec, 0))
  {
    hide Image, SizeOf, U64, Sized, Packed, Bits64;
    UserFields();
    UserShape(z, USER, [IntV(id), BytesV(name), BytesV(email), IntV(created), BoolV(active), BytesV(bio)]);
  }

  predicate LooksLikeSession(fields: seq<Field>) {
    && |fields| == 4
    && fields[0].typ == TInt(Int64) && fields[1].typ == fields[2].typ == TString && fields[3].typ == TBool
    && !fields[0].compress && !fields[1].compress && !fields[2].compress && !fields[3].compress
  }

  lemma FirstTwo(z: Zstd, fields: seq<Field>, rec: Record)
    requires LooksLikeSession(fields) && Aligned(fields, rec)
    ensures EncodeUpTo(z, fields, rec, 2) == U64(Bits64(rec[0].i)) + Sized(rec[1].s)
  {
    FieldBytes(z, fields[0], rec[0]);
    FieldBytes(z, fields[1], rec[1]);
    hide EncodeUpTo, EncodeField, U64, Sized;
    NextField(z, fields, rec, 0);
    NextField(z, fields, rec, 1);
  }

  lemma LastTwo(z: Zstd, fields: seq<Field>, rec: Record)
    requires LooksLikeSession(fields) && Aligned(fields, rec)
    ensures EncodeUpTo(z, fields, rec, 4)
      == EncodeUpTo(z, fields, rec, 2) + Sized(rec[2].s) + [if rec[3].b then 1 else 0]
  {
    FieldBytes(z, fields[2], rec[2]);
    FieldBytes(z, fields[3], rec[3]);
    hide EncodeUpTo, EncodeField, Sized;
    NextField(z, fields, rec, 2);
    NextField(z, fields, rec, 3);
  }

  lemma SessionSize(fields: seq<Field>, rec: Record)
    requires LooksLikeSession(fields) && Aligned(fields, rec)
    ensures MinSize(fields) + VarSizeUpTo(fields, rec, |fields|) == 9 + (4 + |rec[1].s|) + (4 + |rec[2].s|)
  {
    hide MinSizeUpTo, VarSizeUpTo;
    Sizes(fields, rec);
  }

  lemma SessionShape(z: Zstd, t: Table, rec: Record, expiresAt: int)
    requires LooksLikeSession(t.fields) && t.ttl != 0 && t.RecordOk(rec) && Int64.InRange(expiresAt)
    ensures SizeOf(t, rec) == 17 + (4 + |rec[1].s|) + (4 + |rec[2].s|)
    ensures U64(Bits64(expiresAt)) + (U64(Bits64(rec[0].i)) + Sized(rec[1].s) + Sized(rec[2].s) + [if rec[3].b then 1 else 0])
      == Image(z, t, Row(rec, expiresAt))
  {
    hide Image, EncodeField, EncodeUpTo, MinSize, VarSizeUpTo, U64, Sized;
    SessionSize(t.fields, rec);
    FirstTwo(z, t.fields, rec);
    LastTwo(z, t.fields, rec);
    RowBytes(z, t, Row(rec, expiresAt));
  }

  lemma SessionFields()
    ensures LooksLikeSession(SESSION.fields) && SESSION.ttl == 1_000_000_000
  {
  }

  /** The generated Session: the same, behind its expiry. */
  lemma SessionBytes(z: Zstd, id: int, token: Bytes, user: Bytes, active: bool, expiresAt: int)
    requires Int64.InRange(id) && Int64.InRange(expiresAt) && |token| < TWO32 && |user| < TWO32
    ensures var rec := [IntV(id), BytesV(token), BytesV(user), BoolV(active)];
      && SESSION.RecordOk(rec)
      && SizeOf(SESSION, rec) == 17 + (4 + |token|) + (4 + |user|)
      && U64(Bits64(expiresAt)) + (U64(Bits64(id)) + Sized(token) + Sized(user) + [if active then 1 else 0])
         == Image(z, SESSION, Row(rec, expiresAt))
  {
    hide Image, SizeOf, U64, Sized, Bits64;
    SessionFields();
    SessionShape(z, SESSION, [IntV(id), BytesV(token), BytesV(user), BoolV(active)], expiresAt);
  }

  /** The size is accumulated field by field. */
  lemma Sizes(fields: seq<Field>, rec: Record)
    requires Aligned(fields, rec)
    ensures MinSizeUpTo(fields, 0) == 0 == VarSizeUpTo(fields, rec, 0)
    ensures forall n :: 0 <= n < |fields| ==>
      MinSizeUpTo(fields, n + 1) == MinSizeUpTo(fields, n) + MinShare(fields[n])
    ensures forall n :: 0 <= n < |fields| ==>
      VarSizeUpTo(fields, rec, n + 1) == VarSizeUpTo(fields, rec, n) + VarShare(fields[n], rec[n])
  {
  }

  // ---------------------------------------------------------------- rows, read back

  lemma {:induction false} LEofFromLE(b: Bytes)
    ensures LE(FromLE(b), |b|) == b
  {
    if |b| > 0 {
      var n := FromLE(b[1..]);
      assert FromLE(b) == b[0] + 256 * n;
      LEofFromLE(b[1..]);
      LEStep(FromLE(b), |b| - 1);
      hide LE, FromLE;
      assert FromLE(b) / 256 == n && FromLE(b) % 256 == b[0] as nat;
    }
  }

  /** Any four bytes are some length. */
  lemma EveryLength(b: Bytes)
    requires |b| == 4
    ensures exists n: nat :: n < TWO32 && b == U32(n)
  {
    LEofFromLE(b);
    FromLEBound(b);
    ModulusIsPow(Uint32);
    FixedWidth(FromLE(b));
  }

  lemma ReadBack(n: nat, w: nat, pre: Bytes, post: Bytes)
    requires n < Pow256(w)
    ensures FromLE((pre + LE(n, w) + post)[|pre|..|pre| + w]) == n
  {
    FromLEofLE(n, w);
    assert (pre + LE(n, w) + post)[|pre|..|pre| + w] == LE(n, w);
  }

  /** A bool is false exactly at a zero byte; an integer is the two's complement of its bytes. Either is
      truncated exactly when its bytes are not all there. */
  lemma FixedFieldRead(z: Zstd, f: Field, data: Bytes, off: nat)
    requires off <= |data| && !f.typ.VarLen()
    ensures f.typ == TBool ==>
      DecodeField(z, f, data, off) == if off == |data| then Truncated else Parsed((BoolV(data[off] != 0), off + 1))
    ensures f.typ.TInt? ==>
      var w := if f.typ.kind == Int64 || f.typ.kind == Uint64 then 8 else 4;
      && (|data| < off + w ==> DecodeField(z, f, data, off) == Truncated)
      && (|data| >= off + w ==>
            exists v :: f.typ.kind.InRange(v) && DecodeField(z, f, data, off) == Parsed((IntV(v), off + w))
                        && data[off..off + w] == FixedBytes(f.typ.kind, v))
  {
    if f.typ.TInt? {
      var k := f.typ.kind;
      if |data| >= off + k.Width() {
        var raw := data[off..off + k.Width()];
        ModulusIsPow(k);
        FromLEBound(raw);
        var v := k.FromBits(FromLE(raw));
        LEofFromLE(raw);
        FixedBytesAre(k, v);
      }
    }
  }

  /** An integer in its width, signed ones as two's complement, least significant byte first. */
  function FixedBytes(k: IntType, v: int): Bytes
    requires k.InRange(v)
  {
    match k
    case Int64 => U64(Bits64(v))
    case Int32 => U32(Bits32(v))
    case Uint64 => U64(v)
    case Uint32 => U32(v)
  }

  lemma FixedBytesAre(k: IntType, v: int)
    requires k.InRange(v)
    ensures LE(k.ToBits(v), k.Width()) == FixedBytes(k, v)
  {
    hide LE, U32, U64;
    FixedWidth(k.ToBits(v));
  }

  /** A string or uncompressed []byte field is its length in four bytes and that many bytes behind them. */
  lemma SizedFieldRead(z: Zstd, f: Field, pre: Bytes, n: nat, rest: Bytes)
    requires f.typ.VarLen() && !f.compress && n < TWO32
    ensures DecodeField(z, f, pre + U32(n) + rest, |pre|)
      == if n <= |rest| then Parsed((BytesV(rest[..n]), |pre| + 4 + n)) else Truncated
  {
    hide LE, FromLE, U32;
    FixedWidth(n);
    ModulusIsPow(Uint32);
    ReadBack(n, 4, pre, rest);
    var data := pre + U32(n) + rest;
    assert n <= |rest| ==> data[|pre| + 4..|pre| + 4 + n] == rest[..n];
  }

  /** A compressed field: two lengths, and as many bytes as the first says; they are the value if the
      lengths are equal and are decompressed if not. */
  lemma PackedFieldRead(z: Zstd, f: Field, pre: Bytes, n: nat, m: nat, rest: Bytes)
    requires f.typ.VarLen() && f.compress && n < TWO32 && m < TWO32
    ensures DecodeField(z, f, pre + U32(n) + U32(m) + rest, |pre|)
      == if n > |rest| then Truncated
         else if n == m then Parsed((BytesV(rest[..n]), |pre| + 8 + n))
         else if z.decompress(rest[..n]).Raw? then Parsed((BytesV(z.decompress(rest[..n]).bytes), |pre| + 8 + n))
         else BadCompression
  {
    hide LE, FromLE, U32;
    FixedWidth(n);
    FixedWidth(m);
    ModulusIsPow(Uint32);
    var data := pre + U32(n) + U32(m) + rest;
    ReadBack(n, 4, pre, U32(m) + rest);
    assert data == pre + U32(n) + (U32(m) + rest);
    ReadBack(m, 4, pre + U32(n), rest);
    assert n <= |rest| ==> data[|pre| + 8..|pre| + 8 + n] == rest[..n];
  }

  /** Of lengths only a part is there. */
  lemma LengthsCut(z: Zstd, f: Field, data: Bytes, off: nat)
    requires f.typ.VarLen() && off <= |data| < off + (if f.compress then 8 else 4)
    ensures DecodeField(z, f, data, off) == Truncated
  {
  }

  /** A row that is too short is refused as such. Otherwise the fields are read one behind the other, from
      position 8 in a table with a lifetime: if all can be read, they are the record; if not, the first
      that cannot gives the error. */
  lemma RowRead(z: Zstd, t: Table, data: Bytes, rec: Record, ends: seq<nat>)
    requires |ends| == |rec| + 1 && |rec| <= |t.fields|
    requires ends[0] == (if t.ttl != 0 then 8 else 0) && forall i :: 0 <= i < |ends| ==> ends[i] <= |data|
    requires forall i :: 0 <= i < |rec| ==> DecodeField(z, t.fields[i], data, ends[i]) == Parsed((rec[i], ends[i + 1]))
    ensures |data| < MinSize(t.fields) + ends[0] ==> Decode(z, t, data) == TooShort
    ensures |data| >= MinSize(t.fields) + ends[0] && |rec| == |t.fields| ==>
      && Decode(z, t, data).Parsed? && Decode(z, t, data).value.rec == rec
      && var e := Decode(z, t, data).value.expiresAt;
         Int64.InRange(e) && if t.ttl != 0 then data[..8] == U64(Bits64(e)) else e == 0
    ensures |data| >= MinSize(t.fields) + ends[0] && |rec| < |t.fields| ==>
      match DecodeField(z, t.fields[|rec|], data, ends[|rec|])
      case Truncated => Decode(z, t, data) == Truncated
      case BadCompression => Decode(z, t, data) == BadCompression
      case _ => true
  {
    hide DecodeField, DecodeFrom, MinSizeUpTo;
    FieldsRead(z, t.fields, 0, data, rec, ends);
    assert rec[0..] == rec;
    if t.ttl != 0 && |data| >= 8 {
      ModulusIsPow(Int64);
      FromLEBound(data[..8]);
      LEofFromLE(data[..8]);
      FixedBytesAre(Int64, Int64.FromBits(FromLE(data[..8])));
    }
  }

  lemma {:induction false} FieldsRead(z: Zstd, fields: seq<Field>, n: nat, data: Bytes, rec: Record, ends: seq<nat>)
    requires |ends| == |rec| + 1 && n <= |rec| <= |fields| && forall i :: 0 <= i < |ends| ==> ends[i] <= |data|
    requires forall i :: 0 <= i < |rec| ==> DecodeField(z, fields[i], data, ends[i]) == Parsed((rec[i], ends[i + 1]))
    ensures |rec| == |fields| ==> DecodeFrom(z, fields, n, data, ends[n]) == Parsed(rec[n..])
    ensures |rec| < |fields| ==>
      match DecodeField(z, fields[|rec|], data, ends[|rec|])
      case Truncated => DecodeFrom(z, fields, n, data, ends[n]) == Truncated
      case BadCompression => DecodeFrom(z, fields, n, data, ends[n]) == BadCompression
      case _ => true
    decreases |rec| - n
  {
    hide DecodeField;
    if n < |rec| {
      FieldsRead(z, fields, n + 1, data, rec, ends);
      assert rec[n..] == [rec[n]] + rec[n + 1..];
    }
  }
}
