/** The conditions of a query: how the Where methods write them down as text, how the text is taken
    apart again for every row, and what a list of conditions means (internal/codegen/query.go). */
module Where {
  import opened ByteStrings
  import opened Encoding
  import opened Schema

  // ---------------------------------------------------------------- condition text

  /** Position of the last blank, -1 when there is none. */
  function LastSpace(s: string): (k: int)
    ensures -1 <= k < |s|
    ensures k >= 0 ==> s[k] == ' '
    ensures forall j :: k < j < |s| ==> s[j] != ' '
  {
    if |s| == 0 then -1
    else if s[|s| - 1] == ' ' then |s| - 1
    else LastSpace(s[..|s| - 1])
  }

  function Split(cond: string): seq<string> {
    var k := LastSpace(cond);
    if k < 0 then []
    else
      var inner := cond[..k];
      var j := LastSpace(inner);
      if j < 0 then [] else [inner[..j], inner[j + 1..]]
  }

  method FindLastSpace(s: string) returns (k: int)
    ensures k == LastSpace(s)
  {
    k := -1;
    var i := |s| - 1;
    while i >= 0
      invariant -1 <= i < |s|
      invariant forall j :: i < j < |s| ==> s[j] != ' '
    {
      if s[i] == ' ' {
        return i;
      }
      i := i - 1;
    }
  }

  method SplitWhere(cond: string) returns (parts: seq<string>)
    ensures parts == Split(cond)
  {
    var lastSpace := FindLastSpace(cond);
    if lastSpace < 0 { return []; }
    var inner := cond[..lastSpace];
    var i := FindLastSpace(inner);
    if i < 0 { return []; }
    return [inner[..i], inner[i + 1..]];
  }

  /** What Where<Field>(op, value) appends to the condition list. */
  function CondText(name: string, op: string): string {
    name + " " + op + " ?"
  }

  lemma LastSpaceIs(s: string, k: int)
    requires -1 <= k < |s| && (k >= 0 ==> s[k] == ' ') && forall j :: k < j < |s| ==> s[j] != ' '
    ensures LastSpace(s) == k
  {
  }

  /** Field and operator come back exactly when the operator has no blank; otherwise the field part
      has a blank in it and names no field. */
  lemma SplitCondText(name: string, op: string)
    requires ' ' !in name
    ensures |Split(CondText(name, op))| == 2
    ensures Split(CondText(name, op)) == [name, op] <==> ' ' !in op
    ensures ' ' in Split(CondText(name, op))[0] <==> ' ' in op
  {
    var cond := CondText(name, op);
    var k := |name| + 1 + |op|;
    assert cond[k] == ' ' && cond[k + 1] == '?';
    LastSpaceIs(cond, k);
    var inner := cond[..k];
    assert inner == name + " " + op;
    var m := LastSpace(op);
    LastSpaceIs(inner, |name| + 1 + m);
    var parts := Split(cond);
    assert parts == [inner[..|name| + 1 + m], inner[|name| + 2 + m..]];
    if m < 0 {
      assert inner[..|name|] == name && inner[|name| + 1..] == op;
    } else {
      assert op[m] == ' ';
      assert parts[0][|name|] == ' ';
    }
  }

  // ---------------------------------------------------------------- operators

  /** strings.Contains. */
  predicate Contains(hay: Bytes, needle: Bytes) {
    exists i {:trigger hay[i..]} :: 0 <= i <= |hay| && needle <= hay[i..]
  }

  /** compare<Field>: equality for every type, LIKE for strings, order for integers; any other
      operator holds of nothing. */
  predicate Passes(typ: Type, op: string, actual: Val, expected: Val)
    requires ValOk(typ, actual) && ValOk(typ, expected)
  {
    match op
    case "=" => actual == expected
    case "!=" => actual != expected
    case "LIKE" => typ.TString? && Contains(actual.s, expected.s)
    case ">" => typ.TInt? && actual.i > expected.i
    case "<" => typ.TInt? && actual.i < expected.i
    case ">=" => typ.TInt? && actual.i >= expected.i
    case "<=" => typ.TInt? && actual.i <= expected.i
    case _ => false
  }

  predicate Supported(typ: Type, op: string) {
    || op in ["=", "!="]
    || (op == "LIKE" && typ.TString?)
    || (op in [">", "<", ">=", "<="] && typ.TInt?)
  }

  lemma UnsupportedNeverPasses(typ: Type, op: string, actual: Val, expected: Val)
    requires ValOk(typ, actual) && ValOk(typ, expected) && !Supported(typ, op)
    ensures !Passes(typ, op, actual, expected)
  {
  }

  /** LIKE with a pattern and its own text only agrees with LIKE with the other pattern when the
      patterns are equal. */
  lemma ContainsShorter(hay: Bytes, needle: Bytes)
    ensures Contains(hay, hay)
    ensures Contains(hay, needle) ==> |needle| <= |hay| && (|needle| == |hay| ==> needle == hay)
  {
    assert hay[0..] == hay;
    if Contains(hay, needle) {
      var i :| 0 <= i <= |hay| && needle <= hay[i..];
    }
  }

  /** A supported operator tells two arguments apart on one of the two. */
  lemma ArgumentMatters(typ: Type, op: string, a: Val, b: Val)
    requires ValOk(typ, a) && ValOk(typ, b) && Supported(typ, op)
    requires Passes(typ, op, a, a) == Passes(typ, op, a, b)
    requires Passes(typ, op, b, a) == Passes(typ, op, b, b)
    ensures a == b
  {
    if op == "LIKE" {
      ContainsShorter(a.s, b.s);
      ContainsShorter(b.s, a.s);
    }
  }

  // ---------------------------------------------------------------- condition lists

  datatype Cond = Cond(field: nat, op: string, arg: Val)

  predicate CondOk(t: Table, c: Cond) {
    c.field < |t.fields| && c.field != t.primary && ValOk(t.fields[c.field].typ, c.arg)
  }

  predicate CondsOk(t: Table, conds: seq<Cond>) {
    forall j :: 0 <= j < |conds| ==> CondOk(t, conds[j])
  }

  /** The first condition on a field with an operator; |conds| when there is none. */
  function First(conds: seq<Cond>, field: nat, op: string): (k: nat)
    ensures k <= |conds|
    ensures k < |conds| ==> conds[k].field == field && conds[k].op == op
    ensures forall j :: 0 <= j < k ==> !(conds[j].field == field && conds[j].op == op)
  {
    if |conds| == 0 || (conds[0].field == field && conds[0].op == op) then 0
    else 1 + First(conds[1..], field, op)
  }

  /** Condition j as a row is judged by it: a condition with a blank in its operator is skipped, any
      other one is compared with the argument of the first condition on the same field with the same
      operator. */
  predicate Holds(t: Table, conds: seq<Cond>, j: nat, rec: Record)
    requires CondsOk(t, conds) && t.RecordOk(rec) && j < |conds|
  {
    var c := conds[j];
    ' ' in c.op || Passes(t.fields[c.field].typ, c.op, rec[c.field], conds[First(conds, c.field, c.op)].arg)
  }

  /** What condition j says on its face. */
  predicate OnItsFace(t: Table, conds: seq<Cond>, j: nat, rec: Record)
    requires CondsOk(t, conds) && t.RecordOk(rec) && j < |conds|
  {
    Passes(t.fields[conds[j].field].typ, conds[j].op, rec[conds[j].field], conds[j].arg)
  }

  predicate Matches(t: Table, conds: seq<Cond>, rec: Record, from: nat)
    requires CondsOk(t, conds) && t.RecordOk(rec)
  {
    forall j :: from <= j < |conds| ==> Holds(t, conds, j, rec)
  }

  /** The meaning of any condition list: the conjunction of its blank-free conditions, keeping only
      the first of those that share field and operator. */
  lemma MatchesFirsts(t: Table, conds: seq<Cond>, rec: Record)
    requires CondsOk(t, conds) && t.RecordOk(rec)
    ensures Matches(t, conds, rec, 0) <==>
      forall j :: 0 <= j < |conds| && ' ' !in conds[j].op && First(conds, conds[j].field, conds[j].op) == j
        ==> OnItsFace(t, conds, j, rec)
  {
    hide Passes;
    if forall j :: 0 <= j < |conds| && ' ' !in conds[j].op && First(conds, conds[j].field, conds[j].op) == j
         ==> OnItsFace(t, conds, j, rec)
    {
      forall j | 0 <= j < |conds| ensures Holds(t, conds, j, rec) {
        var k := First(conds, conds[j].field, conds[j].op);
        FirstIsFirst(conds, j);
        if ' ' !in conds[j].op { assert OnItsFace(t, conds, k, rec); }
      }
    } else {
      var j :| 0 <= j < |conds| && ' ' !in conds[j].op && First(conds, conds[j].field, conds[j].op) == j
               && !OnItsFace(t, conds, j, rec);
      assert !Holds(t, conds, j, rec);
    }
  }

  lemma FirstIsFirst(conds: seq<Cond>, j: nat)
    requires j < |conds|
    ensures var k := First(conds, conds[j].field, conds[j].op);
      k <= j && First(conds, conds[k].field, conds[k].op) == k
  {
  }

  predicate Distinct(conds: seq<Cond>) {
    forall i, j :: 0 <= i < j < |conds| ==> !(conds[i].field == conds[j].field && conds[i].op == conds[j].op)
  }

  /** With pairwise different (field, operator) pairs and no blanks the list means its conjunction. */
  lemma DistinctIsConjunction(t: Table, conds: seq<Cond>, rec: Record)
    requires CondsOk(t, conds) && t.RecordOk(rec)
    requires Distinct(conds) && forall j :: 0 <= j < |conds| ==> ' ' !in conds[j].op
    ensures Matches(t, conds, rec, 0) <==> forall j :: 0 <= j < |conds| ==> OnItsFace(t, conds, j, rec)
  {
    hide Passes;
    MatchesFirsts(t, conds, rec);
    forall j | 0 <= j < |conds| ensures First(conds, conds[j].field, conds[j].op) == j {
      FirstIsFirst(conds, j);
    }
  }

  function ZeroVal(typ: Type): (v: Val)
    ensures ValOk(typ, v)
  {
    match typ
    case TBool => BoolV(false)
    case TInt(_) => IntV(0)
    case _ => BytesV([])
  }

  function RecordWith(t: Table, f: nat, v: Val): (rec: Record)
    requires f < |t.fields| && ValOk(t.fields[f].typ, v)
    ensures t.RecordOk(rec) && rec[f] == v
  {
    seq(|t.fields|, i requires 0 <= i < |t.fields| => if i == f then v else ZeroVal(t.fields[i].typ))
  }

  /** A supported, blank-free condition is judged by its own argument on every record exactly when
      the first condition with its field and operator has the same argument. */
  lemma OwnArgumentIff(t: Table, conds: seq<Cond>, j: nat)
    requires CondsOk(t, conds) && j < |conds|
    requires ' ' !in conds[j].op && Supported(t.fields[conds[j].field].typ, conds[j].op)
    ensures (forall rec :: t.RecordOk(rec) ==> Holds(t, conds, j, rec) == OnItsFace(t, conds, j, rec))
       <==> conds[First(conds, conds[j].field, conds[j].op)].arg == conds[j].arg
  {
    hide Passes, Supported;
    var c := conds[j];
    var a := conds[First(conds, c.field, c.op)].arg;
    if forall rec :: t.RecordOk(rec) ==> Holds(t, conds, j, rec) == OnItsFace(t, conds, j, rec) {
      var ra, rb := RecordWith(t, c.field, a), RecordWith(t, c.field, c.arg);
      assert Holds(t, conds, j, ra) == OnItsFace(t, conds, j, ra);
      assert Holds(t, conds, j, rb) == OnItsFace(t, conds, j, rb);
      ArgumentMatters(t.fields[c.field].typ, c.op, a, c.arg);
    }
  }

  /** Two Where calls with the same field and operator: the second one is lost. */
  lemma RepeatedConditionLost()
    ensures var conds := [Cond(3, ">", IntV(5)), Cond(3, ">", IntV(7))];
      var rec := RecordWith(USER, 3, IntV(6));
      CondsOk(USER, conds) && Matches(USER, conds, rec, 0) && !OnItsFace(USER, conds, 1, rec)
  {
    var conds := [Cond(3, ">", IntV(5)), Cond(3, ">", IntV(7))];
    var rec := RecordWith(USER, 3, IntV(6));
    assert USER.fields[3].typ == TInt(Int64);
    assert First(conds, 3, ">") == 0;
    assert Holds(USER, conds, 0, rec) && Holds(USER, conds, 1, rec);
  }

  /** A condition with an operator its field type does not support excludes every row, although
      docs/api.md:204-218 lists order operators for indexed strings. */
  lemma UnsupportedExcludesAll(t: Table, conds: seq<Cond>, j: nat, rec: Record)
    requires CondsOk(t, conds) && t.RecordOk(rec) && j < |conds|
    requires ' ' !in conds[j].op && !Supported(t.fields[conds[j].field].typ, conds[j].op)
    ensures !Matches(t, conds, rec, 0)
  {
    var c := conds[j];
    UnsupportedNeverPasses(t.fields[c.field].typ, c.op, rec[c.field], conds[First(conds, c.field, c.op)].arg);
    assert !Holds(t, conds, j, rec);
  }
}
