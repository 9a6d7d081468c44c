/** Tables as the code generator sees them: typed fields, a primary key, secondary indexes, an
    optional record lifetime (internal/codegen/ir.go). */
module Schema {
  import opened ByteStrings
  import opened Encoding

  datatype Type = TBool | TInt(kind: IntType) | TString | TBytes {
    predicate VarLen() { TString? || TBytes? }
  }

  datatype IndexOption = INDEX_NONE | INDEX_NORMAL | INDEX_UNIQUE

  datatype Field = Field(goName: string, typ: Type, number: int, index: IndexOption, compress: bool)

  /** A field value; Go strings are byte strings. */
  datatype Val = BoolV(b: bool) | IntV(i: int) | BytesV(s: Bytes)

  type Record = seq<Val>

  /** primary is the position of the primary key field; ttl is the lifetime in nanoseconds, 0 when
      the table declares none. */
  datatype Table = Table(hash: nat, fields: seq<Field>, primary: nat, ttl: nat) {
    predicate HasTTL() { ttl > 0 }

    predicate Indexed(i: int) {
      0 <= i < |fields| && i != primary && fields[i].index != INDEX_NONE
    }

    predicate Unique(i: int) { Indexed(i) && fields[i].index == INDEX_UNIQUE }

    predicate Normal(i: int) { Indexed(i) && fields[i].index != INDEX_UNIQUE }

    /** What the generator guarantees or this model asks of a table: a primary key, index field numbers
        that survive the narrowing to one byte, and Go identifiers for names. */
    ghost predicate WellFormed()
      ensures WellFormed() ==> hash < TWO64 && primary < |fields|
    {
      && hash < TWO64
      && primary < |fields|
      && ttl < TWO64 / 2
      && (forall i, j :: Indexed(i) && Indexed(j) && i != j
            ==> FieldByte(fields[i].number) != FieldByte(fields[j].number))
      && (forall i :: 0 <= i < |fields| ==> ' ' !in fields[i].goName)
      && (forall i, j :: 0 <= i < j < |fields| ==> fields[i].goName != fields[j].goName)
    }

    /** Records of this table; lengths must fit the 32-bit length prefixes. */
    predicate RecordOk(rec: Record) {
      && |rec| == |fields|
      && forall i :: 0 <= i < |fields| ==> ValOk(fields[i].typ, rec[i])
    }
  }

  predicate ValOk(t: Type, v: Val) {
    match t
    case TBool => v.BoolV?
    case TInt(k) => v.IntV? && k.InRange(v.i)
    case TString => v.BytesV? && |v.s| < TWO32
    case TBytes => v.BytesV? && |v.s| < TWO32
  }

  // ---------------------------------------------------------------- values in keys

  /** fmt's %v of an unsigned integer: decimal digits. */
  function Decimal(n: nat): (b: Bytes)
    ensures 0 < |b| <= n / 2 + 1
  {
    if n < 10 then [(48 + n) as byte] else Decimal(n / 10) + [(48 + n % 10) as byte]
  }

  function FromDecimal(b: Bytes): int {
    if |b| == 0 then 0 else 10 * FromDecimal(b[..|b| - 1]) + b[|b| - 1] as int - 48
  }

  lemma {:induction false} FromDecimalOfDecimal(n: nat)
    ensures FromDecimal(Decimal(n)) == n
  {
    var b := Decimal(n);
    if n >= 10 {
      FromDecimalOfDecimal(n / 10);
      assert b[..|b| - 1] == Decimal(n / 10);
    }
  }

  /** fmt's %v of a bool. */
  function BoolText(b: bool): Bytes {
    if b then [116, 114, 117, 101] else [102, 97, 108, 115, 101]
  }

  /** encode<Message>PrimaryKey. */
  function EncodePk(t: Type, v: Val): Bytes
    requires ValOk(t, v)
  {
    match t
    case TBool => BoolText(v.b)
    case TInt(kind) => EncodeOrdered(kind, v.i)
    case TString => v.s
    case TBytes => v.s
  }

  /** Values an index key can be built for: a value looked up may be longer than any stored one. */
  predicate Encodable(t: Type, v: Val)
    ensures ValOk(t, v) ==> Encodable(t, v)
  {
    if t.VarLen() then v.BytesV? && |v.s| < TWO64 else ValOk(t, v)
  }

  /** encode<Message>Index<Field>Value: int64 and int32 little endian, other scalars as text. */
  function EncodeIndexValue(t: Type, v: Val): (b: Bytes)
    requires Encodable(t, v)
    ensures |b| < TWO64
  {
    match t
    case TBool => BoolText(v.b)
    case TInt(kind) => if kind.Signed() then LE(kind.ToBits(v.i), kind.Width()) else Decimal(v.i)
    case TString => v.s
    case TBytes => v.s
  }

  lemma EncodePkInjective(t: Type, a: Val, b: Val)
    requires ValOk(t, a) && ValOk(t, b)
    requires EncodePk(t, a) == EncodePk(t, b)
    ensures a == b
  {
    if t.TInt? {
      OrderedRoundTrip(t.kind, a.i, []);
      OrderedRoundTrip(t.kind, b.i, []);
    }
  }

  lemma EncodeIndexValueInjective(t: Type, a: Val, b: Val)
    requires Encodable(t, a) && Encodable(t, b)
    ensures EncodeIndexValue(t, a) == EncodeIndexValue(t, b) <==> a == b
  {
    if t.TInt? && t.kind.Signed() {
      ModulusIsPow(t.kind);
      FromLEofLE(t.kind.ToBits(a.i), t.kind.Width());
      FromLEofLE(t.kind.ToBits(b.i), t.kind.Width());
    } else if t.TInt? {
      FromDecimalOfDecimal(a.i);
      FromDecimalOfDecimal(b.i);
    }
  }

  function PkOf(t: Table, rec: Record): Bytes
    requires t.WellFormed() && t.RecordOk(rec)
  {
    EncodePk(t.fields[t.primary].typ, rec[t.primary])
  }

  /** buildStoreData: the index fields in declaration order, and the same split by kind. */
  function SelectFields(t: Table, p: int -> bool, n: nat): (r: seq<nat>)
    requires n <= |t.fields|
    ensures forall i :: i in r <==> 0 <= i < n && p(i)
  {
    if n == 0 then [] else SelectFields(t, p, n - 1) + (if p(n - 1) then [n - 1] else [])
  }

  function IndexedFields(t: Table): (r: seq<nat>)
    ensures forall i :: i in r <==> t.Indexed(i)
  {
    SelectFields(t, t.Indexed, |t.fields|)
  }

  function UniqueFields(t: Table): (r: seq<nat>)
    ensures forall i :: i in r <==> t.Unique(i)
  {
    SelectFields(t, t.Unique, |t.fields|)
  }

  function NormalFields(t: Table): (r: seq<nat>)
    ensures forall i :: i in r <==> t.Normal(i)
  {
    SelectFields(t, t.Normal, |t.fields|)
  }

  /** A narrower selection of nothing selects nothing. */
  lemma {:induction false} NoneSelected(t: Table, p: int -> bool, q: int -> bool, n: nat)
    requires n <= |t.fields| && SelectFields(t, p, n) == [] && forall i :: q(i) ==> p(i)
    ensures SelectFields(t, q, n) == []
  {
    if n > 0 { NoneSelected(t, p, q, n - 1); }
  }

  method BuildStoreData(t: Table) returns (idx: seq<nat>, uniques: seq<nat>, normals: seq<nat>)
    ensures idx == IndexedFields(t) && uniques == UniqueFields(t) && normals == NormalFields(t)
  {
    idx, uniques, normals := [], [], [];
    for i := 0 to |t.fields|
      invariant idx == SelectFields(t, t.Indexed, i)
      invariant uniques == SelectFields(t, t.Unique, i)
      invariant normals == SelectFields(t, t.Normal, i)
    {
      if t.Indexed(i) {
        idx := idx + [i];
        if t.Unique(i) { uniques := uniques + [i]; } else { normals := normals + [i]; }
      }
    }
  }

  // ---------------------------------------------------------------- the two generated test tables

  const USER: Table := Table(
    12299085994647318028,
    [ Field("Id", TInt(Int64), 1, INDEX_NONE, false),
      Field("Name", TString, 2, INDEX_NONE, false),
      Field("Email", TString, 3, INDEX_UNIQUE, false),
      Field("CreatedAt", TInt(Int64), 4, INDEX_NORMAL, false),
      Field("Active", TBool, 5, INDEX_NONE, false),
      Field("Bio", TString, 6, INDEX_NONE, true) ],
    0, 0)

  const SESSION: Table := Table(
    17504996543229074857,
    [ Field("Id", TInt(Int64), 1, INDEX_NONE, false),
      Field("Token", TString, 2, INDEX_NONE, false),
      Field("UserId", TString, 3, INDEX_NORMAL, false),
      Field("Active", TBool, 4, INDEX_NONE, false) ],
    0, 1_000_000_000)

  lemma GeneratedNames()
    ensures forall i :: 0 <= i < |USER.fields| ==> ' ' !in USER.fields[i].goName
    ensures forall i, j :: 0 <= i < j < |USER.fields| ==> USER.fields[i].goName != USER.fields[j].goName
    ensures forall i :: 0 <= i < |SESSION.fields| ==> ' ' !in SESSION.fields[i].goName
    ensures forall i, j :: 0 <= i < j < |SESSION.fields| ==> SESSION.fields[i].goName != SESSION.fields[j].goName
  {
  }

  lemma UserIndexes()
    ensures forall i :: USER.Indexed(i) <==> i == 2 || i == 3
    ensures forall i :: USER.Unique(i) <==> i == 2
    ensures forall i :: USER.Normal(i) <==> i == 3
    ensures USER.fields[2].number == 3 && USER.fields[3].number == 4
  {
  }

  lemma UserWellFormed()
    ensures USER.WellFormed() && !USER.HasTTL()
    ensures forall i :: USER.Unique(i) <==> i == 2
    ensures forall i :: USER.Normal(i) <==> i == 3
  {
    hide Table.Indexed, Table.Unique, Table.Normal;
    UserIndexes();
    GeneratedNames();
  }

  lemma SessionWellFormed()
    ensures SESSION.WellFormed() && SESSION.HasTTL()
    ensures forall i :: !SESSION.Unique(i)
    ensures forall i :: SESSION.Normal(i) <==> i == 2
  {
    GeneratedNames();
  }
}
