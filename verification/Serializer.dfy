/** Row images (internal/codegen/serializer.go and the code it generates): an optional 8-byte expiry
    header, then the fields in declaration order, in a buffer of Size() bytes. */
module Serializer {
  import opened ByteStrings
  import opened Encoding
  import opened Schema

  datatype Row = Row(rec: Record, expiresAt: int)

  datatype Parsed<+T> = Parsed(value: T) | TooShort | Truncated | BadCompression

  datatype Decompressed = Raw(bytes: Bytes) | Corrupt

  /** zstd, known only by its round trip. */
  datatype Zstd = Zstd(compress: Bytes -> Bytes, decompress: Bytes -> Decompressed) {
    ghost predicate Lawful() {
      forall raw: Bytes {:trigger compress(raw)} :: decompress(compress(raw)) == Raw(raw)
    }
  }

  // ---------------------------------------------------------------- sizes

  function FixedSize(t: Type): nat {
    match t
    case TBool => 1
    case TInt(k) => k.Width()
    case TString => 0
    case TBytes => 0
  }

  predicate Compressed(f: Field) { f.compress && f.typ.VarLen() }

  /** The share of one field in the constant part of the size. */
  function MinShare(f: Field): nat {
    FixedSize(f.typ) + if Compressed(f) then 8 else 0
  }

  /** The constant part of the size over the first n fields. */
  function MinSizeUpTo(fields: seq<Field>, n: nat): nat
    requires n <= |fields|
  {
    if n == 0 then 0 else MinSizeUpTo(fields, n - 1) + MinShare(fields[n - 1])
  }

  function MinSize(fields: seq<Field>): nat { MinSizeUpTo(fields, |fields|) }

  function VarShare(f: Field, v: Val): nat
    requires ValOk(f.typ, v)
  {
    if f.typ.VarLen() then 4 + |v.s| else 0
  }

  predicate Aligned(fields: seq<Field>, rec: Record) {
    |rec| == |fields| && forall i :: 0 <= i < |fields| ==> ValOk(fields[i].typ, rec[i])
  }

  function VarSizeUpTo(fields: seq<Field>, rec: Record, n: nat): nat
    requires Aligned(fields, rec) && n <= |fields|
  {
    if n == 0 then 0 else VarSizeUpTo(fields, rec, n - 1) + VarShare(fields[n - 1], rec[n - 1])
  }

  function Header(t: Table): nat { if t.HasTTL() then 8 else 0 }

  function SizeOf(t: Table, rec: Record): nat
    requires t.RecordOk(rec)
  {
    MinSize(t.fields) + Header(t) + VarSizeUpTo(t.fields, rec, |t.fields|)
  }

  /** buildSerializerData: the minimal length, accumulated over the fields. */
  method BuildMinSize(fields: seq<Field>) returns (minSize: nat)
    ensures minSize == MinSize(fields)
  {
    minSize := 0;
    for i := 0 to |fields|
      invariant minSize == MinSizeUpTo(fields, i)
    {
      var fixedLen := FixedSize(fields[i].typ);
      var isVarLen := fixedLen == 0;
      if !isVarLen { minSize := minSize + fixedLen; }
      if fields[i].compress && isVarLen { minSize := minSize + 8; }
    }
  }

  method Size(t: Table, rec: Record) returns (size: nat)
    requires t.RecordOk(rec)
    ensures size == SizeOf(t, rec)
  {
    var minSize := BuildMinSize(t.fields);
    size := minSize + Header(t);
    for i := 0 to |t.fields|
      invariant size == minSize + Header(t) + VarSizeUpTo(t.fields, rec, i)
    {
      if t.fields[i].typ.VarLen() { size := size + 4 + |rec[i].s|; }
    }
  }

  // ---------------------------------------------------------------- images

  function EncodeField(z: Zstd, f: Field, v: Val): Bytes
    requires ValOk(f.typ, v)
  {
    match f.typ
    case TBool => [if v.b then 1 else 0]
    case TInt(k) => LE(k.ToBits(v.i), k.Width())
    case _ => if f.compress then EncodeCompressed(z, v.s) else EncodeVarLen(v.s)
  }

  function EncodeVarLen(s: Bytes): Bytes { LE(|s|, 4) + s }

  function EncodeCompressed(z: Zstd, raw: Bytes): Bytes {
    var c := z.compress(raw);
    if |c| < |raw| then LE(|c|, 4) + LE(|raw|, 4) + c
    else LE(|raw|, 4) + LE(|raw|, 4) + raw
  }

  /** The images of the first n fields, one behind the other. */
  function EncodeUpTo(z: Zstd, fields: seq<Field>, rec: Record, n: nat): Bytes
    requires Aligned(fields, rec) && n <= |fields|
  {
    if n == 0 then []
    else EncodeUpTo(z, fields, rec, n - 1) + EncodeField(z, fields[n - 1], rec[n - 1])
  }

  function HeaderBytes(t: Table, expiresAt: int): Bytes
    requires Int64.InRange(expiresAt)
  {
    if t.HasTTL() then LE(Int64.ToBits(expiresAt), 8) else []
  }

  function Zeros(n: nat): (b: Bytes)
    ensures |b| == n
  {
    seq(n, _ => 0)
  }

  lemma FieldFits(z: Zstd, f: Field, v: Val)
    requires ValOk(f.typ, v)
    ensures |EncodeField(z, f, v)| <= MinShare(f) + VarShare(f, v)
  {
  }

  lemma {:induction false} FieldsFit(z: Zstd, fields: seq<Field>, rec: Record, n: nat)
    requires Aligned(fields, rec) && n <= |fields|
    ensures |EncodeUpTo(z, fields, rec, n)| <= MinSizeUpTo(fields, n) + VarSizeUpTo(fields, rec, n)
  {
    hide EncodeField, MinShare, VarShare;
    if n > 0 {
      FieldsFit(z, fields, rec, n - 1);
      FieldFits(z, fields[n - 1], rec[n - 1]);
    }
  }

  /** What the first n fields occupy is the beginning of what all of them occupy. */
  lemma {:induction false} EncodePrefix(z: Zstd, fields: seq<Field>, rec: Record, n: nat, m: nat)
    requires Aligned(fields, rec) && n <= m <= |fields|
    ensures EncodeUpTo(z, fields, rec, n) <= EncodeUpTo(z, fields, rec, m)
  {
    hide EncodeField;
    if n < m { EncodePrefix(z, fields, rec, n, m - 1); }
  }

  /** The whole row: header, fields, and the unused tail that the size estimate leaves at zero. */
  function Image(z: Zstd, t: Table, row: Row): (b: Bytes)
    requires t.RecordOk(row.rec) && Int64.InRange(row.expiresAt)
    ensures |b| == SizeOf(t, row.rec)
  {
    FieldsFit(z, t.fields, row.rec, |t.fields|);
    var used := HeaderBytes(t, row.expiresAt) + EncodeUpTo(z, t.fields, row.rec, |t.fields|);
    used + Zeros(SizeOf(t, row.rec) - |used|)
  }

  // ---------------------------------------------------------------- serialization

  /** A buffer with b written over position off. */
  function Splice(buf: Bytes, off: nat, b: Bytes): Bytes
    requires off + |b| <= |buf|
  {
    buf[..off] + b + buf[off + |b|..]
  }

  lemma SpliceSplice(buf: Bytes, off: nat, a: Bytes, b: Bytes)
    requires off + |a| + |b| <= |buf|
    ensures Splice(Splice(buf, off, a), off + |a|, b) == Splice(buf, off, a + b)
  {
  }

  method PutBytes(buf: array<byte>, start: nat, b: Bytes) returns (off: nat)
    requires start + |b| <= buf.Length
    modifies buf
    ensures off == start + |b|
    ensures buf[..] == Splice(old(buf[..]), start, b)
  {
    forall i | 0 <= i < |b| { buf[start + i] := b[i]; }
    off := start + |b|;
  }

  method PutCompressed(z: Zstd, raw: Bytes, buf: array<byte>, start: nat) returns (off: nat)
    requires start + |EncodeCompressed(z, raw)| <= buf.Length
    modifies buf
    ensures off == start + |EncodeCompressed(z, raw)|
    ensures buf[..] == Splice(old(buf[..]), start, EncodeCompressed(z, raw))
  {
    ghost var before := buf[..];
    var compressed := z.compress(raw);
    var body := raw;
    if |compressed| < |raw| { body := compressed; }
    off := PutBytes(buf, start, LE(|body|, 4));
    off := PutBytes(buf, off, LE(|raw|, 4));
    SpliceSplice(before, start, LE(|body|, 4), LE(|raw|, 4));
    off := PutBytes(buf, off, body);
    SpliceSplice(before, start, LE(|body|, 4) + LE(|raw|, 4), body);
  }

  method PutField(z: Zstd, f: Field, v: Val, buf: array<byte>, start: nat) returns (off: nat)
    requires ValOk(f.typ, v)
    requires start + |EncodeField(z, f, v)| <= buf.Length
    modifies buf
    ensures off == start + |EncodeField(z, f, v)|
    ensures buf[..] == Splice(old(buf[..]), start, EncodeField(z, f, v))
  {
    match f.typ
    case TBool =>
      buf[start] := if v.b then 1 else 0;
      off := start + 1;
    case TInt(k) =>
      off := PutBytes(buf, start, LE(k.ToBits(v.i), k.Width()));
    case _ =>
      if f.compress {
        off := PutCompressed(z, v.s, buf, start);
      } else {
        ghost var before := buf[..];
        off := PutBytes(buf, start, LE(|v.s|, 4));
        off := PutBytes(buf, off, v.s);
        SpliceSplice(before, start, LE(|v.s|, 4), v.s);
      }
  }

  lemma NothingEncoded(z: Zstd, fields: seq<Field>, rec: Record, buf: Bytes, off: nat)
    requires Aligned(fields, rec) && off <= |buf|
    ensures EncodeUpTo(z, fields, rec, 0) == [] && Splice(buf, off, EncodeUpTo(z, fields, rec, 0)) == buf
  {
  }

  lemma EncodeStep(z: Zstd, fields: seq<Field>, rec: Record, i: nat)
    requires Aligned(fields, rec) && i < |fields|
    ensures EncodeUpTo(z, fields, rec, i + 1) == EncodeUpTo(z, fields, rec, i) + EncodeField(z, fields[i], rec[i])
    ensures |EncodeUpTo(z, fields, rec, i + 1)| <= |EncodeUpTo(z, fields, rec, |fields|)|
  {
    EncodePrefix(z, fields, rec, i + 1, |fields|);
  }

  /** Field i, behind those before it. */
  method PutNext(z: Zstd, fields: seq<Field>, rec: Record, i: nat, buf: array<byte>, off: nat, ghost before: Bytes, ghost start: nat)
    returns (next: nat)
    requires Aligned(fields, rec) && i < |fields|
    requires start + |EncodeUpTo(z, fields, rec, |fields|)| <= buf.Length == |before|
    requires start + |EncodeUpTo(z, fields, rec, i)| == off <= buf.Length
    requires buf[..] == Splice(before, start, EncodeUpTo(z, fields, rec, i))
    modifies buf
    ensures start + |EncodeUpTo(z, fields, rec, i + 1)| == next <= buf.Length
    ensures buf[..] == Splice(before, start, EncodeUpTo(z, fields, rec, i + 1))
  {
    hide EncodeField, EncodeUpTo, Splice;
    EncodeStep(z, fields, rec, i);
    next := PutField(z, fields[i], rec[i], buf, off);
    SpliceSplice(before, start, EncodeUpTo(z, fields, rec, i), EncodeField(z, fields[i], rec[i]));
  }

  method PutFields(z: Zstd, fields: seq<Field>, rec: Record, buf: array<byte>, start: nat) returns (off: nat)
    requires Aligned(fields, rec)
    requires start + |EncodeUpTo(z, fields, rec, |fields|)| <= buf.Length
    modifies buf
    ensures off == start + |EncodeUpTo(z, fields, rec, |fields|)|
    ensures buf[..] == Splice(old(buf[..]), start, EncodeUpTo(z, fields, rec, |fields|))
  {
    hide EncodeUpTo, EncodeField, Splice, ValOk;
    off := start;
    ghost var before := buf[..];
    NothingEncoded(z, fields, rec, before, start);
    for i := 0 to |fields|
      invariant start + |EncodeUpTo(z, fields, rec, i)| == off <= buf.Length
      invariant buf[..] == Splice(before, start, EncodeUpTo(z, fields, rec, i))
    {
      off := PutNext(z, fields, rec, i, buf, off, before, start);
    }
  }

  lemma ImageFillsBuffer(z: Zstd, t: Table, row: Row)
    requires t.RecordOk(row.rec) && Int64.InRange(row.expiresAt)
    ensures var head := HeaderBytes(t, row.expiresAt);
      var body := EncodeUpTo(z, t.fields, row.rec, |t.fields|);
      && |head| + |body| <= SizeOf(t, row.rec)
      && Splice(Splice(Zeros(SizeOf(t, row.rec)), 0, head), |head|, body) == Image(z, t, row)
  {
    hide LE, EncodeField, EncodeUpTo, MinSizeUpTo, VarSizeUpTo, Splice, Zeros;
    var head, body := HeaderBytes(t, row.expiresAt), EncodeUpTo(z, t.fields, row.rec, |t.fields|);
    FieldsFit(z, t.fields, row.rec, |t.fields|);
    SpliceSplice(Zeros(SizeOf(t, row.rec)), 0, head, body);
    SpliceZeros(SizeOf(t, row.rec), head + body);
  }

  lemma SpliceZeros(size: nat, b: Bytes)
    requires |b| <= size
    ensures Splice(Zeros(size), 0, b) == b + Zeros(size - |b|)
  {
    assert Zeros(size)[|b|..] == Zeros(size - |b|);
  }

  /** Serialize / SerializeWithExpiry: every write lands inside the Size() buffer. */
  method Serialize(z: Zstd, t: Table, rec: Record, expiresAt: int) returns (buf: array<byte>)
    requires t.RecordOk(rec) && Int64.InRange(expiresAt)
    ensures fresh(buf) && buf[..] == Image(z, t, Row(rec, expiresAt))
  {
    ImageFillsBuffer(z, t, Row(rec, expiresAt));
    var size := Size(t, rec);
    buf := new byte[size](_ => 0);
    assert buf[..] == Zeros(size);
    var off := 0;
    if t.HasTTL() {
      off := PutBytes(buf, 0, LE(Int64.ToBits(expiresAt), 8));
    } else {
      assert Splice(buf[..], 0, []) == buf[..];
    }
    off := PutFields(z, t.fields, rec, buf, off);
  }

  // ---------------------------------------------------------------- deserialization

  /** One field at offset off: its value and the offset behind it. */
  function DecodeField(z: Zstd, f: Field, data: Bytes, off: nat): (r: Parsed<(Val, nat)>)
    requires off <= |data|
    ensures r.Parsed? ==> off <= r.value.1 <= |data|
  {
    match f.typ
    case TBool =>
      if off + 1 > |data| then Truncated else Parsed((BoolV(data[off] != 0), off + 1))
    case TInt(k) =>
      if off + k.Width() > |data| then Truncated
      else
        var raw := data[off..off + k.Width()];
        ModulusIsPow(k);
        FromLEBound(raw);
        Parsed((IntV(k.FromBits(FromLE(raw))), off + k.Width()))
    case _ =>
      if !f.compress then
        if off + 4 > |data| then Truncated
        else
          var vLen := FromLE(data[off..off + 4]);
          if off + 4 + vLen > |data| then Truncated
          else Parsed((BytesV(data[off + 4..off + 4 + vLen]), off + 4 + vLen))
      else
        if off + 8 > |data| then Truncated
        else
          var vLen := FromLE(data[off..off + 4]);
          var origLen := FromLE(data[off + 4..off + 8]);
          if off + 8 + vLen > |data| then Truncated
          else
            var body := data[off + 8..off + 8 + vLen];
            if vLen == origLen then Parsed((BytesV(body), off + 8 + vLen))
            else
              match z.decompress(body)
              case Corrupt => BadCompression
              case Raw(bytes) => Parsed((BytesV(bytes), off + 8 + vLen))
  }

  /** The fields from number n on, read from offset off. */
  function DecodeFrom(z: Zstd, fields: seq<Field>, n: nat, data: Bytes, off: nat): (r: Parsed<Record>)
    requires n <= |fields| && off <= |data|
    ensures r.Parsed? ==> |r.value| == |fields| - n
    decreases |fields| - n
  {
    if n == |fields| then Parsed([])
    else
      match DecodeField(z, fields[n], data, off)
      case Parsed(p) =>
        (match DecodeFrom(z, fields, n + 1, data, p.1)
         case Parsed(rest) => Parsed([p.0] + rest)
         case TooShort => TooShort
         case Truncated => Truncated
         case BadCompression => BadCompression)
      case TooShort => TooShort
      case Truncated => Truncated
      case BadCompression => BadCompression
  }

  function Decode(z: Zstd, t: Table, data: Bytes): Parsed<Row> {
    if |data| < MinSize(t.fields) + Header(t) then TooShort
    else
      ModulusIsPow(Int64);
      FromLEBound(data[..Header(t)]);
      var expiresAt := if t.HasTTL() then Int64.FromBits(FromLE(data[..8])) else 0;
      match DecodeFrom(z, t.fields, 0, data, Header(t))
      case Parsed(rec) => Parsed(Row(rec, expiresAt))
      case TooShort => TooShort
      case Truncated => Truncated
      case BadCompression => BadCompression
  }

  /** What has been read so far in front of the outcome of the rest. */
  function InFront(rec: Record, rest: Parsed<Record>): Parsed<Record> {
    if rest.Parsed? then Parsed(rec + rest.value) else rest
  }

  lemma InFrontStep(z: Zstd, fields: seq<Field>, n: nat, data: Bytes, off: nat, rec: Record)
    requires n < |fields| && off <= |data| && DecodeField(z, fields[n], data, off).Parsed?
    ensures var p := DecodeField(z, fields[n], data, off).value;
      InFront(rec, DecodeFrom(z, fields, n, data, off))
        == InFront(rec + [p.0], DecodeFrom(z, fields, n + 1, data, p.1))
  {
    hide DecodeField;
    var p := DecodeField(z, fields[n], data, off).value;
    var rest := DecodeFrom(z, fields, n + 1, data, p.1);
    assert rest.Parsed? ==> rec + ([p.0] + rest.value) == (rec + [p.0]) + rest.value;
  }

  lemma InFrontEnds(z: Zstd, fields: seq<Field>, n: nat, data: Bytes, off: nat, rec: Record)
    requires n <= |fields| && off <= |data|
    ensures InFront([], DecodeFrom(z, fields, n, data, off)) == DecodeFrom(z, fields, n, data, off)
    ensures n == |fields| ==> InFront(rec, DecodeFrom(z, fields, n, data, off)) == Parsed(rec)
    ensures n < |fields| && !DecodeField(z, fields[n], data, off).Parsed? ==>
      InFront(rec, DecodeFrom(z, fields, n, data, off)) == match DecodeField(z, fields[n], data, off)
        case TooShort => TooShort
        case Truncated => Truncated
        case _ => BadCompression
  {
    hide DecodeField;
    var rest := DecodeFrom(z, fields, n, data, off);
    assert rest.Parsed? ==> [] + rest.value == rest.value;
    assert rec + [] == rec;
  }

  /** The field loop: the offset never leaves the input, whatever the input is. */
  method DeserializeFields(z: Zstd, fields: seq<Field>, data: Bytes, start: nat) returns (r: Parsed<Record>)
    requires start <= |data|
    ensures r == DecodeFrom(z, fields, 0, data, start)
  {
    hide DecodeField, DecodeFrom, InFront;
    var rec: Record, off: nat := [], start;
    InFrontEnds(z, fields, 0, data, start, []);
    for i := 0 to |fields|
      invariant off <= |data|
      invariant DecodeFrom(z, fields, 0, data, start) == InFront(rec, DecodeFrom(z, fields, i, data, off))
    {
      InFrontEnds(z, fields, i, data, off, rec);
      match DecodeField(z, fields[i], data, off)
      case Parsed(q) =>
        InFrontStep(z, fields, i, data, off, rec);
        rec, off := rec + [q.0], q.1;
      case TooShort => return TooShort;
      case Truncated => return Truncated;
      case BadCompression => return BadCompression;
    }
    InFrontEnds(z, fields, |fields|, data, off, rec);
    return Parsed(rec);
  }

  /** Deserialize<Message>Meta, on any bytes. */
  method Deserialize(z: Zstd, t: Table, data: Bytes) returns (r: Parsed<Row>)
    ensures r == Decode(z, t, data)
  {
    hide DecodeField, DecodeFrom;
    var minSize := BuildMinSize(t.fields);
    if |data| < minSize + Header(t) { return TooShort; }
    var expiresAt := 0;
    var off: nat := 0;
    if t.HasTTL() {
      ModulusIsPow(Int64);
      FromLEBound(data[..8]);
      expiresAt := Int64.FromBits(FromLE(data[..8]));
      off := 8;
    }
    var fields := DeserializeFields(z, t.fields, data, off);
    match fields
    case Parsed(rec) => return Parsed(Row(rec, expiresAt));
    case TooShort => return TooShort;
    case Truncated => return Truncated;
    case BadCompression => return BadCompression;
  }

  // ---------------------------------------------------------------- round trip

  lemma LengthPrefix(n: nat, pre: Bytes, post: Bytes)
    requires n < TWO32
    ensures FromLE((pre + LE(n, 4) + post)[|pre|..|pre| + 4]) == n
  {
    ModulusIsPow(Uint32);
    FromLEofLE(n, 4);
    assert (pre + LE(n, 4) + post)[|pre|..|pre| + 4] == LE(n, 4);
  }

  /** The body of a variable-length field behind a header of 4 or 8 bytes. */
  lemma BodyAt(pre: Bytes, head: Bytes, body: Bytes, post: Bytes)
    ensures (pre + (head + body) + post)[|pre + head|..|pre + head| + |body|] == body
  {
  }

  lemma VarLenRoundTrip(s: Bytes, pre: Bytes, post: Bytes)
    requires |s| < TWO32
    ensures var data := pre + EncodeVarLen(s) + post;
      && FromLE(data[|pre|..|pre| + 4]) == |s|
      && data[|pre| + 4..|pre| + 4 + |s|] == s
  {
    LengthPrefix(|s|, pre, s + post);
    assert pre + EncodeVarLen(s) + post == pre + LE(|s|, 4) + (s + post);
    BodyAt(pre, LE(|s|, 4), s, post);
  }

  /** The same bytes, seen around each of their middle parts. */
  lemma Regroup(pre: Bytes, a: Bytes, b: Bytes, c: Bytes, post: Bytes)
    ensures pre + (a + b + c) + post == pre + a + (b + c + post)
    ensures pre + (a + b + c) + post == (pre + a) + b + (c + post)
  {
  }

  lemma TwoLengthsRoundTrip(n: nat, m: nat, body: Bytes, pre: Bytes, post: Bytes)
    requires n < TWO32 && m < TWO32
    ensures var data := pre + (LE(n, 4) + LE(m, 4) + body) + post;
      && FromLE(data[|pre|..|pre| + 4]) == n
      && FromLE(data[|pre| + 4..|pre| + 8]) == m
      && data[|pre| + 8..|pre| + 8 + |body|] == body
  {
    hide LE, FromLE;
    var a, b := LE(n, 4), LE(m, 4);
    Regroup(pre, a, b, body, post);
    LengthPrefix(n, pre, b + body + post);
    SecondLength(m, pre, a, body + post);
    BodyAt(pre, a + b, body, post);
  }

  lemma SecondLength(m: nat, pre: Bytes, a: Bytes, post: Bytes)
    requires m < TWO32 && |a| == 4
    ensures FromLE(((pre + a) + LE(m, 4) + post)[|pre| + 4..|pre| + 8]) == m
  {
    hide LE, FromLE;
    LengthPrefix(m, pre + a, post);
  }

  lemma FixedRoundTrip(z: Zstd, f: Field, v: Val, pre: Bytes, post: Bytes)
    requires ValOk(f.typ, v) && !f.typ.VarLen()
    ensures var e := EncodeField(z, f, v);
      DecodeField(z, f, pre + e + post, |pre|) == Parsed((v, |pre| + |e|))
  {
    hide LE;
    if f.typ.TInt? {
      var k, e := f.typ.kind, EncodeField(z, f, v);
      ModulusIsPow(k);
      FromLEofLE(k.ToBits(v.i), k.Width());
      assert (pre + e + post)[|pre|..|pre| + k.Width()] == e;
    }
  }

  lemma RawRoundTrip(z: Zstd, f: Field, v: Val, pre: Bytes, post: Bytes)
    requires ValOk(f.typ, v) && f.typ.VarLen() && !f.compress
    ensures var e := EncodeField(z, f, v);
      DecodeField(z, f, pre + e + post, |pre|) == Parsed((v, |pre| + |e|))
  {
    hide LE, FromLE;
    VarLenRoundTrip(v.s, pre, post);
  }

  lemma CompressedRoundTrip(z: Zstd, f: Field, v: Val, pre: Bytes, post: Bytes)
    requires z.Lawful() && ValOk(f.typ, v) && f.typ.VarLen() && f.compress
    ensures var e := EncodeField(z, f, v);
      DecodeField(z, f, pre + e + post, |pre|) == Parsed((v, |pre| + |e|))
  {
    hide LE, FromLE;
    var c := z.compress(v.s);
    assert z.decompress(c) == Raw(v.s);
    var body := if |c| < |v.s| then c else v.s;
    TwoLengthsRoundTrip(|body|, |v.s|, body, pre, post);
  }

  /** A field is recovered wherever its image stands. Whether the body was compressed is read off
      the two lengths: they differ exactly when compression was worth it. */
  lemma FieldRoundTrip(z: Zstd, f: Field, v: Val, pre: Bytes, post: Bytes)
    requires z.Lawful() && ValOk(f.typ, v)
    ensures var e := EncodeField(z, f, v);
      DecodeField(z, f, pre + e + post, |pre|) == Parsed((v, |pre| + |e|))
  {
    hide EncodeField, DecodeField;
    if !f.typ.VarLen() {
      FixedRoundTrip(z, f, v, pre, post);
    } else if f.compress {
      CompressedRoundTrip(z, f, v, pre, post);
    } else {
      RawRoundTrip(z, f, v, pre, post);
    }
  }

  lemma FieldInPlace(z: Zstd, fields: seq<Field>, rec: Record, n: nat, pre: Bytes, post: Bytes)
    requires z.Lawful() && Aligned(fields, rec) && n < |fields|
    ensures var data := pre + EncodeUpTo(z, fields, rec, |fields|) + post;
      var off := |pre| + |EncodeUpTo(z, fields, rec, n)|;
      && off <= |data|
      && DecodeField(z, fields[n], data, off)
         == Parsed((rec[n], |pre| + |EncodeUpTo(z, fields, rec, n + 1)|))
  {
    hide DecodeField, EncodeField;
    var done := EncodeUpTo(z, fields, rec, n);
    var all := EncodeUpTo(z, fields, rec, |fields|);
    var e := EncodeField(z, fields[n], rec[n]);
    EncodePrefix(z, fields, rec, n + 1, |fields|);
    var rest := all[|done + e|..];
    assert pre + all + post == (pre + done) + e + (rest + post);
    FieldRoundTrip(z, fields[n], rec[n], pre + done, rest + post);
  }

  lemma {:induction false} FieldsRoundTrip(z: Zstd, fields: seq<Field>, rec: Record, n: nat, pre: Bytes, post: Bytes)
    requires z.Lawful() && Aligned(fields, rec) && n <= |fields|
    ensures var data := pre + EncodeUpTo(z, fields, rec, |fields|) + post;
      var off := |pre| + |EncodeUpTo(z, fields, rec, n)|;
      off <= |data| && DecodeFrom(z, fields, n, data, off) == Parsed(rec[n..])
    decreases |fields| - n
  {
    hide DecodeField, EncodeField;
    EncodePrefix(z, fields, rec, n, |fields|);
    if n == |fields| {
      assert rec[n..] == [];
    } else {
      FieldsRoundTrip(z, fields, rec, n + 1, pre, post);
      FieldInPlace(z, fields, rec, n, pre, post);
      assert rec[n..] == [rec[n]] + rec[n + 1..];
    }
  }

  /** Deserialize undoes Serialize for every field list and every record whose lengths fit, expiry
      included. */
  lemma RowRoundTrip(z: Zstd, t: Table, row: Row)
    requires z.Lawful() && t.RecordOk(row.rec) && Int64.InRange(row.expiresAt)
    ensures Decode(z, t, Image(z, t, row)) == Parsed(if t.HasTTL() then row else row.(expiresAt := 0))
  {
    hide LE, FromLE, DecodeFrom, EncodeField, MinSizeUpTo, VarSizeUpTo;
    var head := HeaderBytes(t, row.expiresAt);
    var body := EncodeUpTo(z, t.fields, row.rec, |t.fields|);
    FieldsFit(z, t.fields, row.rec, |t.fields|);
    var post := Zeros(SizeOf(t, row.rec) - |head + body|);
    FieldsRoundTrip(z, t.fields, row.rec, 0, head, post);
    assert row.rec[0..] == row.rec;
    assert Image(z, t, row) == head + body + post;
    if t.HasTTL() {
      ModulusIsPow(Int64);
      FromLEofLE(Int64.ToBits(row.expiresAt), 8);
      assert (head + body + post)[..8] == head;
    }
  }
}
