/**
 * An ArcGIS feature class as the indicator scripts see it through ArcPy:
 * a list of fields and a list of rows, each row a record of one value per
 * field. The scripts change it by adding fields and by UpdateCursor loops
 * that rewrite one field of the rows that meet a condition.
 */
module FeatureTables {
  import Indices

  /** An attribute value read or written through a cursor; `Null` is Python's `None`. */
  datatype Value = Null | Int(i: int) | Real(r: real) | Str(s: string)

  /** `v > 0` on a numeric value. */
  predicate Positive(v: Value) {
    (v.Int? && v.i > 0) || (v.Real? && v.r > 0.0)
  }

  /** Python truthiness of a value. */
  predicate Truthy(v: Value) {
    match v
    case Null => false
    case Int(i) => i != 0
    case Real(r) => r != 0.0
    case Str(s) => s != ""
  }

  /** A numeric value as a real, as Python's true division uses it. */
  function AsReal(v: Value): real
    requires v.Int? || v.Real?
  {
    if v.Int? then v.i as real else v.r
  }

  /** The `type` of an ArcPy field, as `arcpy.ListFields` reports it. */
  datatype FieldType = Geometry | OID | SmallInteger | Integer | Double | String

  datatype Field = Field(name: string, kind: FieldType)

  /** One row: the value of every field, by field name. */
  type Row = map<string, Value>

  /** `[f.name for f in arcpy.ListFields(fc)]`. */
  function NamesOf(fields: seq<Field>): (names: seq<string>)
    ensures |names| == |fields|
    ensures forall i :: 0 <= i < |fields| ==> names[i] == fields[i].name
  {
    seq(|fields|, i requires 0 <= i < |fields| => fields[i].name)
  }

  /** A row holds a value for exactly the named fields. */
  ghost predicate Keyed(row: Row, names: seq<string>) {
    forall f :: f in row <==> f in names
  }

  /** A well-formed table: field names are unique and every row has every field. */
  ghost predicate Table(fields: seq<Field>, rows: seq<Row>) {
    Indices.Distinct(NamesOf(fields)) && forall r :: 0 <= r < |rows| ==> Keyed(rows[r], NamesOf(fields))
  }

  /** Appending a field of a new name keeps the names unique. */
  lemma NamesSnoc(fields: seq<Field>, f: Field)
    requires Indices.Distinct(NamesOf(fields)) && f.name !in NamesOf(fields)
    ensures NamesOf(fields + [f]) == NamesOf(fields) + [f.name]
    ensures Indices.Distinct(NamesOf(fields + [f]))
  {
    assert NamesOf(fields + [f]) == NamesOf(fields) + [f.name];
  }

  /** `CalculateField(fc, name, v)`: every row gets `v` in the field. */
  function SetColumn(rows: seq<Row>, name: string, v: Value): (r: seq<Row>)
    ensures |r| == |rows|
    ensures forall i :: 0 <= i < |r| ==> r[i].Keys == rows[i].Keys + {name} && r[i][name] == v
    ensures forall i, f :: 0 <= i < |r| && f in rows[i] && f != name ==> r[i][f] == rows[i][f]
  {
    seq(|rows|, i requires 0 <= i < |rows| => rows[i][name := v])
  }

  /** An added field, set to `v` everywhere, keeps the table well formed. */
  lemma TableAddColumn(fields: seq<Field>, rows: seq<Row>, f: Field, v: Value)
    requires Table(fields, rows) && f.name !in NamesOf(fields)
    ensures Table(fields + [f], SetColumn(rows, f.name, v))
  {
    NamesSnoc(fields, f);
  }

  /** The rows after `UPDATE ... SET name = 0 WHERE name IS NULL`. */
  function ZeroNulls(rows: seq<Row>, name: string): (r: seq<Row>)
    requires forall i :: 0 <= i < |rows| ==> name in rows[i]
    ensures |r| == |rows|
    ensures forall i :: 0 <= i < |r| ==> r[i].Keys == rows[i].Keys && r[i][name] != Null
    ensures forall i :: 0 <= i < |r| && rows[i][name] == Null ==> r[i][name] == Int(0)
    ensures forall i, f :: 0 <= i < |r| && f in rows[i] && (f != name || rows[i][name] != Null) ==> r[i][f] == rows[i][f]
  {
    seq(|rows|, i requires 0 <= i < |rows| => if rows[i][name] == Null then rows[i][name := Int(0)] else rows[i])
  }

  /**
   * The rows after the loop `if row[0] in d: row[1] = d[row[0]]` over the
   * fields `[key, out]`: a row whose key is in the dict takes the dict's
   * value, every other row is left as it was.
   */
  function Updated(rows: seq<Row>, key: string, out: string, dict: map<Value, Value>): (r: seq<Row>)
    requires forall i :: 0 <= i < |rows| ==> key in rows[i] && out in rows[i]
    ensures |r| == |rows|
    ensures forall i :: 0 <= i < |r| ==> r[i].Keys == rows[i].Keys
    ensures forall i :: 0 <= i < |r| && rows[i][key] in dict ==> r[i][out] == dict[rows[i][key]]
    ensures forall i, f :: 0 <= i < |r| && f in rows[i] && (f != out || rows[i][key] !in dict) ==> r[i][f] == rows[i][f]
  {
    seq(|rows|, i requires 0 <= i < |rows| =>
      if rows[i][key] in dict then rows[i][out := dict[rows[i][key]]] else rows[i])
  }

  /** The two ratios written from an area: a percentage of it, or an amount per unit of it. */
  datatype Ratio = Percent | PerArea

  /** `(part / total) * 100` or `part / total`. */
  function RatioOf(part: real, total: real, kind: Ratio): (v: real)
    requires total > 0.0
    ensures kind == Percent ==> v * total == part * 100.0
    ensures kind == PerArea ==> v * total == part
  {
    if kind == Percent then (part / total) * 100.0 else part / total
  }

  /**
   * The rows after the loop over `[key, area, out]` that writes the ratio of
   * the dict's amount to the row's area, only where the key is in the dict
   * and the area is positive.
   */
  function RatioUpdated(rows: seq<Row>, key: string, area: string, out: string, dict: map<Value, real>, kind: Ratio)
    : (r: seq<Row>)
    requires forall i :: 0 <= i < |rows| ==> key in rows[i] && area in rows[i] && out in rows[i]
    ensures |r| == |rows|
    ensures forall i :: 0 <= i < |r| ==> r[i].Keys == rows[i].Keys
    ensures forall i :: 0 <= i < |r| && rows[i][key] in dict && Positive(rows[i][area]) ==>
              r[i][out] == Real(RatioOf(dict[rows[i][key]], AsReal(rows[i][area]), kind))
    ensures forall i, f :: 0 <= i < |r| && f in rows[i] && (f != out || rows[i][key] !in dict || !Positive(rows[i][area])) ==>
              r[i][f] == rows[i][f]
  {
    seq(|rows|, i requires 0 <= i < |rows| =>
      if rows[i][key] in dict && Positive(rows[i][area])
      then rows[i][out := Real(RatioOf(dict[rows[i][key]], AsReal(rows[i][area]), kind))]
      else rows[i])
  }

  /** A rewrite that keeps every row's fields keeps the table well formed. */
  lemma TableSameKeys(fields: seq<Field>, rows: seq<Row>, rows': seq<Row>)
    requires Table(fields, rows) && |rows'| == |rows|
    requires forall i :: 0 <= i < |rows| ==> rows'[i].Keys == rows[i].Keys
    ensures Table(fields, rows')
  {
    forall r | 0 <= r < |rows'|
      ensures Keyed(rows'[r], NamesOf(fields))
    {
      assert rows'[r].Keys == rows[r].Keys;
    }
  }

  /** A feature class whose rows the scripts update in place. */
  class FeatureClass {
    var fields: seq<Field>
    var rows: seq<Row>

    ghost predicate Valid()
      reads this
    {
      Table(fields, rows)
    }

    function Names(): seq<string>
      reads this
    {
      NamesOf(fields)
    }

    constructor (fields: seq<Field>, rows: seq<Row>)
      requires Table(fields, rows)
      ensures Valid()
      ensures this.fields == fields && this.rows == rows
    {
      this.fields := fields;
      this.rows := rows;
    }

    /** `AddField` followed by `CalculateField(fc, name, 0)` on a field of a new name. */
    method AddZeroedField(name: string, kind: FieldType)
      requires Valid() && name !in Names()
      modifies this
      ensures Valid()
      ensures fields == old(fields) + [Field(name, kind)] && Names() == old(Names()) + [name]
      ensures rows == SetColumn(old(rows), name, Int(0))
    {
      TableAddColumn(fields, rows, Field(name, kind), Int(0));
      NamesSnoc(fields, Field(name, kind));
      fields := fields + [Field(name, kind)];
      rows := SetColumn(rows, name, Int(0));
    }

    /** The UpdateCursor loop over `name IS NULL` that sets each such row to 0. */
    method ZeroNullEntries(name: string)
      requires Valid() && name in Names()
      modifies this
      ensures Valid()
      ensures fields == old(fields)
      ensures rows == ZeroNulls(old(rows), name)
    {
      ghost var before := rows;
      for r := 0 to |rows|
        invariant fields == old(fields) && |rows| == |before|
        invariant forall k :: 0 <= k < |rows| ==> name in before[k]
        invariant forall k :: 0 <= k < r ==> rows[k] == ZeroNulls(before, name)[k]
        invariant forall k :: r <= k < |rows| ==> rows[k] == before[k]
      {
        if rows[r][name] == Null {
          rows := rows[r := rows[r][name := Int(0)]];
        }
      }
      assert rows == ZeroNulls(before, name);
      TableSameKeys(fields, before, rows);
    }

    /** The `[key, out]` UpdateCursor loop that copies the dict's value into matching rows. */
    method UpdateFromDict(key: string, out: string, dict: map<Value, Value>)
      requires Valid() && key in Names() && out in Names()
      modifies this
      ensures Valid()
      ensures fields == old(fields)
      ensures rows == Updated(old(rows), key, out, dict)
    {
      ghost var before := rows;
      for r := 0 to |rows|
        invariant fields == old(fields) && |rows| == |before|
        invariant forall k :: 0 <= k < |rows| ==> key in before[k] && out in before[k]
        invariant forall k :: 0 <= k < r ==> rows[k] == Updated(before, key, out, dict)[k]
        invariant forall k :: r <= k < |rows| ==> rows[k] == before[k]
      {
        var id := rows[r][key];
        if id in dict {
          rows := rows[r := rows[r][out := dict[id]]];
        }
      }
      assert rows == Updated(before, key, out, dict);
      TableSameKeys(fields, before, rows);
    }

    /** The `[key, area, out]` UpdateCursor loop that writes the ratio to the row's area. */
    method UpdateRatio(key: string, area: string, out: string, dict: map<Value, real>, kind: Ratio)
      requires Valid() && key in Names() && area in Names() && out in Names()
      modifies this
      ensures Valid()
      ensures fields == old(fields)
      ensures rows == RatioUpdated(old(rows), key, area, out, dict, kind)
    {
      ghost var before := rows;
      for r := 0 to |rows|
        invariant fields == old(fields) && |rows| == |before|
        invariant forall k :: 0 <= k < |rows| ==> key in before[k] && area in before[k] && out in before[k]
        invariant forall k :: 0 <= k < r ==> rows[k] == RatioUpdated(before, key, area, out, dict, kind)[k]
        invariant forall k :: r <= k < |rows| ==> rows[k] == before[k]
      {
        var id := rows[r][key];
        var total := rows[r][area];
        if id in dict && Positive(total) {
          rows := rows[r := rows[r][out := Real(RatioOf(dict[id], AsReal(total), kind))]];
        }
      }
      assert rows == RatioUpdated(before, key, area, out, dict, kind);
      TableSameKeys(fields, before, rows);
    }
  }
}
