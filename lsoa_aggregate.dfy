/**
 * The LSOA indicator table: each indicator is a field of the LSOA feature
 * class, zeroed first and then filled from a dict built from a spatial
 * join, an intersection or a statistics table; at the end the attribute
 * table is written to a CSV with the LSOA code first.
 */
module LsoaAggregate {
  import opened Wrappers
  import opened FeatureTables
  import Dicts
  import Text

  /** A field's value after `add_and_zero_field`: an existing non-NULL value is kept, anything else is 0. */
  function ZeroedValue(row: Row, name: string): Value {
    if name in row && row[name] != Null then row[name] else Int(0)
  }

  /** The rows after `add_and_zero_field`: a new field is 0 everywhere, an existing one has its NULLs set to 0. */
  function AfterAddAndZero(fields: seq<Field>, rows: seq<Row>, name: string): (r: seq<Row>)
    requires Table(fields, rows)
    ensures |r| == |rows|
    ensures forall i :: 0 <= i < |r| ==> r[i].Keys == rows[i].Keys + {name} && r[i][name] == ZeroedValue(rows[i], name)
    ensures forall i, f :: 0 <= i < |r| && f in rows[i] && f != name ==> r[i][f] == rows[i][f]
  {
    if name in NamesOf(fields) then ZeroNulls(rows, name) else SetColumn(rows, name, Int(0))
  }

  /**
   * `add_and_zero_field`: a field of a new name is added and set to 0 and
   * the call answers True; an existing field keeps its type and its
   * non-NULL values, its NULLs become 0, and the call answers False.
   */
  method AddAndZeroField(fc: FeatureClass, name: string, kind: FieldType) returns (added: bool)
    requires fc.Valid()
    modifies fc
    ensures fc.Valid()
    ensures added <==> name !in old(fc.Names())
    ensures added ==> fc.fields == old(fc.fields) + [Field(name, kind)] && fc.Names() == old(fc.Names()) + [name]
    ensures !added ==> fc.fields == old(fc.fields)
    ensures fc.rows == AfterAddAndZero(old(fc.fields), old(fc.rows), name)
  {
    if name !in fc.Names() {
      fc.AddZeroedField(name, kind);
      return true;
    } else {
      fc.ZeroNullEntries(name);
      return false;
    }
  }

  /**
   * A dict update after `add_and_zero_field` on its output field: a row
   * whose key is in the dict gets the dict's value, every other row the
   * zeroed value, and no other field changes.
   */
  lemma UpdatedAfterZero(fields: seq<Field>, rows: seq<Row>, key: string, out: string, dict: map<Value, Value>, i: nat)
    requires Table(fields, rows) && key in NamesOf(fields) && key != out && i < |rows|
    ensures var r := Updated(AfterAddAndZero(fields, rows, out), key, out, dict);
            |r| == |rows| && r[i].Keys == rows[i].Keys + {out}
            && r[i][out] == (if rows[i][key] in dict then dict[rows[i][key]] else ZeroedValue(rows[i], out))
            && forall f :: f in rows[i] && f != out ==> r[i][f] == rows[i][f]
  {
    assert key in rows[i];
  }

  predicate CountKept(id: Value, count: Value) {
    Positive(count)
  }

  /** `{row[0]: row[1] for row in SearchCursor(join, [key, "Join_Count"]) if row[1] > 0}`. */
  function CountDict(join: seq<(Value, Value)>): map<Value, Value> {
    Dicts.Comprehension(join, CountKept)
  }

  /** An LSOA is in the count dict exactly when one of its join rows has a positive count, whose value it holds. */
  lemma CountDictFacts(join: seq<(Value, Value)>, id: Value)
    ensures id in CountDict(join) <==> exists j :: 0 <= j < |join| && join[j].0 == id && Positive(join[j].1)
    ensures id in CountDict(join) ==> Positive(CountDict(join)[id]) && exists j :: 0 <= j < |join| && join[j] == (id, CountDict(join)[id])
  {
    Dicts.ComprehensionKeys(join, CountKept, id);
    if id in CountDict(join) {
      Dicts.ComprehensionValue(join, CountKept, id);
    }
  }

  /**
   * `summarize_by_count`: the count field is zeroed, then every LSOA with a
   * positive join count takes that count.
   */
  method SummarizeByCount(fc: FeatureClass, key: string, out: string, join: seq<(Value, Value)>)
    requires fc.Valid() && key in fc.Names() && key != out
    modifies fc
    ensures fc.Valid()
    ensures fc.rows == Updated(AfterAddAndZero(old(fc.fields), old(fc.rows), out), key, out, CountDict(join))
  {
    var _ := AddAndZeroField(fc, out, Integer);
    var countDict := CountDict(join);
    fc.UpdateFromDict(key, out, countDict);
  }

  predicate SumKept(id: Value, total: Value) {
    total != Null
  }

  /**
   * The sum dict: the non-`None` sums of the join when the join created the
   * output field, and empty when it did not.
   */
  function SumDict(fieldCreated: bool, join: seq<(Value, Value)>): (d: map<Value, Value>)
    ensures !fieldCreated ==> d == map[]
  {
    if fieldCreated then Dicts.Comprehension(join, SumKept) else map[]
  }

  /** With the output field created, an LSOA is in the sum dict exactly when it has a non-`None` sum, which it holds. */
  lemma SumDictFacts(join: seq<(Value, Value)>, id: Value)
    ensures id in SumDict(true, join) <==> exists j :: 0 <= j < |join| && join[j].0 == id && join[j].1 != Null
    ensures id in SumDict(true, join) ==> SumDict(true, join)[id] != Null
                                           && exists j :: 0 <= j < |join| && join[j] == (id, SumDict(true, join)[id])
  {
    Dicts.ComprehensionKeys(join, SumKept, id);
    if id in SumDict(true, join) {
      Dicts.ComprehensionValue(join, SumKept, id);
    }
  }

  /** `summarize_by_sum`: the dict is read first, then the field is zeroed and filled from it. */
  method SummarizeBySum(fc: FeatureClass, key: string, out: string, fieldCreated: bool, join: seq<(Value, Value)>)
    requires fc.Valid() && key in fc.Names() && key != out
    modifies fc
    ensures fc.Valid()
    ensures fc.rows == Updated(AfterAddAndZero(old(fc.fields), old(fc.rows), out), key, out, SumDict(fieldCreated, join))
  {
    var sumDict := SumDict(fieldCreated, join);
    var _ := AddAndZeroField(fc, out, Double);
    fc.UpdateFromDict(key, out, sumDict);
  }

  /** Without intersections the sum field only holds zeroed values: 0 on a new field. */
  lemma NoIntersectionsStayZero(fields: seq<Field>, rows: seq<Row>, key: string, out: string, join: seq<(Value, Value)>, i: nat)
    requires Table(fields, rows) && key in NamesOf(fields) && key != out && i < |rows|
    ensures Updated(AfterAddAndZero(fields, rows, out), key, out, SumDict(false, join))[i][out] == ZeroedValue(rows[i], out)
    ensures out !in NamesOf(fields) ==> Updated(AfterAddAndZero(fields, rows, out), key, out, SumDict(false, join))[i][out] == Int(0)
  {
    UpdatedAfterZero(fields, rows, key, out, SumDict(false, join), i);
  }

  /** `lsoa_id and area`: both truthy. */
  predicate PieceKept(piece: (Value, Value)) {
    Truthy(piece.0) && Truthy(piece.1)
  }

  /** The intersected area field is a DOUBLE field: every area is a number or NULL. */
  predicate NumericAreas(pieces: seq<(Value, Value)>) {
    forall j :: 0 <= j < |pieces| ==> pieces[j].1.Null? || pieces[j].1.Int? || pieces[j].1.Real?
  }

  /** The `defaultdict(float)` after `sum_dict[lsoa_id] += area` over the intersection pieces. */
  function AreaTotals(pieces: seq<(Value, Value)>): map<Value, real>
    requires NumericAreas(pieces)
    decreases |pieces|
  {
    if pieces == [] then map[]
    else
      var n := |pieces| - 1;
      var m := AreaTotals(pieces[..n]);
      var p := pieces[n];
      if PieceKept(p) then m[p.0 := (if p.0 in m then m[p.0] else 0.0) + AsReal(p.1)] else m
  }

  /** The total area of the kept pieces of one LSOA. */
  function AreaOf(pieces: seq<(Value, Value)>, id: Value): real
    requires NumericAreas(pieces)
    decreases |pieces|
  {
    if pieces == [] then 0.0
    else
      var n := |pieces| - 1;
      var p := pieces[n];
      AreaOf(pieces[..n], id) + (if PieceKept(p) && p.0 == id then AsReal(p.1) else 0.0)
  }

  /**
   * An LSOA is summed exactly when one of its pieces is kept, and its sum is
   * the total area of its kept pieces.
   */
  lemma {:induction false} AreaTotalsFacts(pieces: seq<(Value, Value)>, id: Value)
    requires NumericAreas(pieces)
    ensures id in AreaTotals(pieces) <==> exists j :: 0 <= j < |pieces| && pieces[j].0 == id && PieceKept(pieces[j])
    ensures id in AreaTotals(pieces) ==> AreaTotals(pieces)[id] == AreaOf(pieces, id)
    ensures id !in AreaTotals(pieces) ==> AreaOf(pieces, id) == 0.0
    decreases |pieces|
  {
    if pieces != [] {
      var n := |pieces| - 1;
      var front := pieces[..n];
      assert NumericAreas(front);
      AreaTotalsFacts(front, id);
      if exists j :: 0 <= j < |pieces| && pieces[j].0 == id && PieceKept(pieces[j]) {
        var j :| 0 <= j < |pieces| && pieces[j].0 == id && PieceKept(pieces[j]);
        if j < n {
          assert front[j] == pieces[j];
        }
      }
      if id in AreaTotals(front) {
        var j :| 0 <= j < n && front[j].0 == id && PieceKept(front[j]);
        assert pieces[j] == front[j];
      }
    }
  }

  /** The SearchCursor loop over the intersection that fills the `defaultdict`. */
  method SumAreas(pieces: seq<(Value, Value)>) returns (sums: map<Value, real>)
    requires NumericAreas(pieces)
    ensures sums == AreaTotals(pieces)
  {
    sums := map[];
    for j := 0 to |pieces|
      invariant NumericAreas(pieces[..j])
      invariant sums == AreaTotals(pieces[..j])
    {
      assert pieces[..j + 1][..j] == pieces[..j];
      var (lsoaId, area) := pieces[j];
      if Truthy(lsoaId) && Truthy(area) {
        var sofar := if lsoaId in sums then sums[lsoaId] else 0.0;
        sums := sums[lsoaId := sofar + AsReal(area)];
      }
    }
    assert pieces[..|pieces|] == pieces;
  }

  /**
   * `calculate_percent_area`: the field is zeroed, the intersected areas are
   * summed per LSOA, and an LSOA with a sum and a positive area gets the
   * percentage of its area that is covered.
   */
  method CalculatePercentArea(fc: FeatureClass, key: string, area: string, out: string, pieces: seq<(Value, Value)>)
    requires fc.Valid() && key in fc.Names() && area in fc.Names() && out != key && out != area
    requires NumericAreas(pieces)
    modifies fc
    ensures fc.Valid()
    ensures fc.rows == RatioUpdated(AfterAddAndZero(old(fc.fields), old(fc.rows), out), key, area, out, AreaTotals(pieces), Percent)
  {
    var _ := AddAndZeroField(fc, out, Double);
    var sumDict := SumAreas(pieces);
    fc.UpdateRatio(key, area, out, sumDict, Percent);
  }

  /**
   * A ratio update after `add_and_zero_field` on its output field: a row
   * with a dict entry and a positive area gets the ratio, every other row
   * the zeroed value, and no other field changes.
   */
  lemma RatioAfterZero(fields: seq<Field>, rows: seq<Row>, key: string, area: string, out: string,
                       dict: map<Value, real>, kind: Ratio, i: nat)
    requires Table(fields, rows) && key in NamesOf(fields) && area in NamesOf(fields) && out != key && out != area
    requires i < |rows|
    ensures var r := RatioUpdated(AfterAddAndZero(fields, rows, out), key, area, out, dict, kind);
            |r| == |rows|
            && r[i][out] == (if rows[i][key] in dict && Positive(rows[i][area])
                             then Real(RatioOf(dict[rows[i][key]], AsReal(rows[i][area]), kind))
                             else ZeroedValue(rows[i], out))
            && forall f :: f in rows[i] && f != out ==> r[i][f] == rows[i][f]
  {
    assert key in rows[i] && area in rows[i];
  }

  /** A covered percentage is 100 times the LSOA's intersected area over its area (see `RatioOf`). */
  lemma PercentIsCoverage(fields: seq<Field>, rows: seq<Row>, key: string, area: string, out: string,
                          pieces: seq<(Value, Value)>, i: nat)
    requires Table(fields, rows) && key in NamesOf(fields) && area in NamesOf(fields) && out != key && out != area
    requires NumericAreas(pieces) && i < |rows|
    requires rows[i][key] in AreaTotals(pieces) && Positive(rows[i][area])
    ensures var r := RatioUpdated(AfterAddAndZero(fields, rows, out), key, area, out, AreaTotals(pieces), Percent);
            r[i][out] == Real(RatioOf(AreaOf(pieces, rows[i][key]), AsReal(rows[i][area]), Percent))
  {
    var id := rows[i][key];
    var total := AsReal(rows[i][area]);
    RatioAfterZero(fields, rows, key, area, out, AreaTotals(pieces), Percent, i);
    AreaTotalsFacts(pieces, id);

  }

  /**
   * `calculate_line_density`: the field is zeroed and an LSOA with a summed
   * length and a positive area gets length per unit area.
   */
  method CalculateLineDensity(fc: FeatureClass, key: string, area: string, out: string, stats: seq<(Value, real)>)
    requires fc.Valid() && key in fc.Names() && area in fc.Names() && out != key && out != area
    modifies fc
    ensures fc.Valid()
    ensures fc.rows == RatioUpdated(AfterAddAndZero(old(fc.fields), old(fc.rows), out), key, area, out, Dicts.Assoc(stats), PerArea)
  {
    var _ := AddAndZeroField(fc, out, Double);
    var sumLenDict := Dicts.Assoc(stats);
    fc.UpdateRatio(key, area, out, sumLenDict, PerArea);
  }

  /** `{row[0] for row in SearchCursor(join, [key, "Join_Count"]) if row[1] > 0}`. */
  function PresenceSet(join: seq<(Value, Value)>): (s: set<Value>)
    ensures forall id :: id in s <==> exists j :: 0 <= j < |join| && join[j].0 == id && Positive(join[j].1)
  {
    set j | 0 <= j < |join| && Positive(join[j].1) :: join[j].0
  }

  /** Present LSOAs are written 1. */
  function OneFor(present: set<Value>): (d: map<Value, Value>)
    ensures d.Keys == present && forall id :: id in d ==> d[id] == Int(1)
  {
    map id | id in present :: Int(1)
  }

  /**
   * `calculate_buffered_presence`: the SHORT field is zeroed and every LSOA
   * met by a buffer is set to 1.
   */
  method CalculateBufferedPresence(fc: FeatureClass, key: string, out: string, join: seq<(Value, Value)>)
    requires fc.Valid() && key in fc.Names() && key != out
    modifies fc
    ensures fc.Valid()
    ensures fc.rows == Updated(AfterAddAndZero(old(fc.fields), old(fc.rows), out), key, out, OneFor(PresenceSet(join)))
  {
    var _ := AddAndZeroField(fc, out, SmallInteger);
    var presence := PresenceSet(join);
    // The cursor loop writes 1 for every present LSOA.
    fc.UpdateFromDict(key, out, OneFor(presence));
  }

  /** On a new presence field, a row is 1 exactly when its LSOA was met by a buffer, and 0 otherwise. */
  lemma PresenceIsBinary(fields: seq<Field>, rows: seq<Row>, key: string, out: string, join: seq<(Value, Value)>, i: nat)
    requires Table(fields, rows) && key in NamesOf(fields) && key != out && out !in NamesOf(fields) && i < |rows|
    ensures var r := Updated(AfterAddAndZero(fields, rows, out), key, out, OneFor(PresenceSet(join)));
            (r[i][out] == Int(1) <==> exists j :: 0 <= j < |join| && join[j].0 == rows[i][key] && Positive(join[j].1))
            && (r[i][out] == Int(1) || r[i][out] == Int(0))
  {
    UpdatedAfterZero(fields, rows, key, out, OneFor(PresenceSet(join)), i);
    assert !(out in rows[i]);
  }

  /** `s.index(x)`: the position of the first `x`. */
  function FirstIndex(s: seq<string>, x: string): (i: nat)
    requires x in s
    ensures i < |s| && s[i] == x && x !in s[..i]
    decreases |s|
  {
    if s[0] == x then 0
    else
      var j := FirstIndex(s[1..], x);
      assert s[..j + 1] == [s[0]] + s[1..][..j];
      j + 1
  }

  /** `fields.remove(x)`: the list without its first `x`, both sides kept in order. */
  function RemoveFirst(s: seq<string>, x: string): (r: seq<string>)
    requires x in s
    ensures |r| == |s| - 1
  {
    var i := FirstIndex(s, x);
    s[..i] + s[i + 1..]
  }

  /** The names of the fields written to the CSV: all but geometry and `OBJECTID`, in table order. */
  function CsvFields(fields: seq<Field>): (names: seq<string>)
    ensures forall n :: n in names ==> exists j :: 0 <= j < |fields| && fields[j].name == n
                                                    && fields[j].kind != Geometry && n != "OBJECTID"
    decreases |fields|
  {
    if fields == [] then []
    else
      var n := |fields| - 1;
      CsvFields(fields[..n])
      + (if fields[n].kind != Geometry && fields[n].name != "OBJECTID" then [fields[n].name] else [])
  }

  /** Every field that is neither geometry nor `OBJECTID` is exported. */
  lemma {:induction false} CsvFieldsComplete(fields: seq<Field>, j: nat)
    requires j < |fields| && fields[j].kind != Geometry && fields[j].name != "OBJECTID"
    ensures fields[j].name in CsvFields(fields)
    decreases |fields|
  {
    var n := |fields| - 1;
    if j < n {
      var front := fields[..n];
      assert front[j] == fields[j];
      CsvFieldsComplete(front, j);
    }
  }

  /** The CSV's columns: the exported fields with the key field moved to the front when present. */
  function ExportColumns(fields: seq<Field>, key: string): seq<string> {
    var names := CsvFields(fields);
    if key in names then [key] + RemoveFirst(names, key) else names
  }

  /**
   * The CSV's columns are the exported fields: the key first when it is one
   * of them, and the others in their table order around its old place.
   */
  lemma ExportColumnsOrder(fields: seq<Field>, key: string)
    ensures key in CsvFields(fields) ==>
              var i := FirstIndex(CsvFields(fields), key);
              CsvFields(fields) == CsvFields(fields)[..i] + [key] + CsvFields(fields)[i + 1..]
              && ExportColumns(fields, key) == [key] + CsvFields(fields)[..i] + CsvFields(fields)[i + 1..]
    ensures key !in CsvFields(fields) ==> ExportColumns(fields, key) == CsvFields(fields)
  {
    var names := CsvFields(fields);
    if key in names {
      var i := FirstIndex(names, key);
      assert names == names[..i] + [key] + names[i + 1..];
      assert ExportColumns(fields, key) == [key] + names[..i] + names[i + 1..];
    }
  }

  /** `str(v) if v is not None else ''`; how Python prints a float is the `showReal` parameter. */
  function Cell(v: Value, showReal: real -> string): string {
    match v
    case Null => ""
    case Int(i) => Text.IntToString(i)
    case Real(r) => showReal(r)
    case Str(s) => s
  }

  /** `','.join(cells) + '\n'`. */
  function CsvLine(cells: seq<string>): string {
    Text.Join(",", cells) + "\n"
  }

  /** The cells of one row, in column order. */
  function RowCells(row: Row, columns: seq<string>, showReal: real -> string): (cells: seq<string>)
    requires forall k :: 0 <= k < |columns| ==> columns[k] in row
    ensures |cells| == |columns|
    ensures forall k :: 0 <= k < |columns| ==> cells[k] == Cell(row[columns[k]], showReal)
  {
    seq(|columns|, k requires 0 <= k < |columns| => Cell(row[columns[k]], showReal))
  }

  /** Every listed column is a field of every row. */
  ghost predicate HasColumns(rows: seq<Row>, columns: seq<string>) {
    forall i, k :: 0 <= i < |rows| && 0 <= k < |columns| ==> columns[k] in rows[i]
  }

  /** Columns that are fields of a well-formed table are fields of each of its rows. */
  lemma TableHasColumns(fields: seq<Field>, rows: seq<Row>, columns: seq<string>)
    requires Table(fields, rows)
    requires forall k :: 0 <= k < |columns| ==> columns[k] in NamesOf(fields)
    ensures HasColumns(rows, columns)
  {
  }

  /** The exported columns are fields of the table. */
  lemma ExportColumnsAreFields(fields: seq<Field>, key: string)
    ensures forall k :: 0 <= k < |ExportColumns(fields, key)| ==> ExportColumns(fields, key)[k] in NamesOf(fields)
  {
    var columns := ExportColumns(fields, key);
    ExportColumnsOrder(fields, key);
    forall k | 0 <= k < |columns|
      ensures columns[k] in NamesOf(fields)
    {
      assert columns[k] in CsvFields(fields);
      var j :| 0 <= j < |fields| && fields[j].name == columns[k];
      assert NamesOf(fields)[j] == columns[k];
    }
  }

  /** The data lines of the CSV, one per row. */
  function CsvLines(rows: seq<Row>, columns: seq<string>, showReal: real -> string): (lines: seq<string>)
    requires HasColumns(rows, columns)
    ensures |lines| == |rows|
    ensures forall i :: 0 <= i < |rows| ==> lines[i] == CsvLine(RowCells(rows[i], columns, showReal))
  {
    seq(|rows|, i requires 0 <= i < |rows| => CsvLine(RowCells(rows[i], columns, showReal)))
  }

  /** The lines written one after the other. */
  function Concat(lines: seq<string>): string
    decreases |lines|
  {
    if lines == [] then "" else Concat(lines[..|lines| - 1]) + lines[|lines| - 1]
  }

  /** A line whose cells hold no comma splits back into its cells. */
  lemma CsvLineRoundTrip(cells: seq<string>)
    requires |cells| >= 1
    requires forall k :: 0 <= k < |cells| ==> ',' !in cells[k]
    ensures var line := CsvLine(cells); line[|line| - 1] == '\n' && Text.Split(line[..|line| - 1], ',') == cells
  {
    var line := CsvLine(cells);
    assert line[..|line| - 1] == Text.Join([','], cells);
    Text.SplitJoin(cells, ',');
  }

  /**
   * `export_to_csv`: the header line of the column names, then one line per
   * row with `None` printed as the empty string.
   */
  method ExportToCsv(fc: FeatureClass, key: string, showReal: real -> string) returns (text: string)
    requires fc.Valid()
    ensures HasColumns(fc.rows, ExportColumns(fc.fields, key))
    ensures text == CsvLine(ExportColumns(fc.fields, key)) + Concat(CsvLines(fc.rows, ExportColumns(fc.fields, key), showReal))
  {
    var columns := ExportColumns(fc.fields, key);
    ExportColumnsAreFields(fc.fields, key);
    TableHasColumns(fc.fields, fc.rows, columns);
    var rows := fc.rows;
    ghost var lines := CsvLines(rows, columns, showReal);
    var header := CsvLine(columns);
    var body := "";
    for i := 0 to |rows|
      invariant body == Concat(lines[..i])
    {
      assert lines[..i + 1][..i] == lines[..i];
      body := body + CsvLine(RowCells(rows[i], columns, showReal));
    }
    assert lines[..|lines|] == lines;
    // The header is written first, then the row lines.
    text := header + body;
  }
}
