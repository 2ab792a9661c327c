/**
 * Georeferencing the census tables: each CSV is joined to the LSOA layer
 * and the joined fields, which ArcGIS names after the table view, are
 * renamed back to the CSV's own field names before export.
 */
module CensusGeoref {
  import opened Wrappers
  import Text

  /** `f"{csv_name}_view"`, the name of the table view. */
  function ViewName(csvName: string): string {
    csvName + "_view"
  }

  /** `f"lsoa_{csv_name}"`, the exported feature class. */
  function OutputName(csvName: string): string {
    "lsoa_" + csvName
  }

  /** Both names keep the CSV's name, so distinct CSVs get distinct views and outputs. */
  lemma NamesKeepCsvName(csvName: string)
    ensures ViewName(csvName)[..|csvName|] == csvName && ViewName(csvName)[|csvName|..] == "_view"
    ensures OutputName(csvName)[5..] == csvName && OutputName(csvName)[..5] == "lsoa_"
  {
  }

  lemma NamesInjective(a: string, b: string)
    requires ViewName(a) == ViewName(b) || OutputName(a) == OutputName(b)
    ensures a == b
  {
    if ViewName(a) == ViewName(b) {
      assert |a| == |b|;
      NamesKeepCsvName(a);
      NamesKeepCsvName(b);
    } else {
      NamesKeepCsvName(a);
      NamesKeepCsvName(b);
    }
  }

  /** Pattern 1: the name splits on `.` into several parts and the first is the view's name. */
  predicate DotPattern(fieldName: string, view: string) {
    var parts := Text.Split(fieldName, '.');
    |parts| > 1 && parts[0] == view
  }

  /** Pattern 2: the name starts with the CSV's name and `_`. */
  predicate UnderscorePattern(fieldName: string, csvName: string) {
    Text.StartsWith(fieldName, csvName + "_")
  }

  /** The CSV field a joined field came from, found by the first pattern that applies. */
  function ResolveOriginal(fieldName: string, csvName: string, csvFields: seq<string>): (r: Option<string>)
    ensures r.Some? ==> r.value in csvFields
    ensures r.Some? ==> DotPattern(fieldName, ViewName(csvName)) || UnderscorePattern(fieldName, csvName)
  {
    if DotPattern(fieldName, ViewName(csvName)) then
      var parts := Text.Split(fieldName, '.');
      var potential := parts[|parts| - 1];
      if potential in csvFields then Some(potential) else None
    else if UnderscorePattern(fieldName, csvName) then
      var potential := Text.Strip(fieldName[|csvName| + 1..]);
      if potential in csvFields then Some(potential) else None
    else None
  }

  /**
   * Under the dot pattern the name is `<view>.` ... `.<original>`: an
   * original is found exactly when some dot-free CSV field ends the name
   * after a dot, and then it is that field.
   */
  lemma DotOriginalAtEnd(fieldName: string, csvName: string, csvFields: seq<string>)
    requires DotPattern(fieldName, ViewName(csvName))
    ensures Text.StartsWith(fieldName, ViewName(csvName) + ".")
    ensures var r := ResolveOriginal(fieldName, csvName, csvFields);
            r.Some? ==> Text.EndsWith(fieldName, "." + r.value) && '.' !in r.value
    ensures ResolveOriginal(fieldName, csvName, csvFields).Some?
            <==> exists o :: o in csvFields && '.' !in o && Text.EndsWith(fieldName, "." + o)
  {
    var view := ViewName(csvName);
    var parts := Text.Split(fieldName, '.');
    var last := parts[|parts| - 1];
    assert '.' !in view by { assert view == parts[0]; }
    Text.SplitFirst(fieldName, view, '.');
    Text.SplitLast(fieldName, '.', last);
    if exists o :: o in csvFields && '.' !in o && Text.EndsWith(fieldName, "." + o) {
      var o :| o in csvFields && '.' !in o && Text.EndsWith(fieldName, "." + o);
      Text.SplitLast(fieldName, '.', o);
    }
  }

  /**
   * For a CSV name without a dot, the dot pattern is exactly a name that
   * starts with the view's name and a dot; for one with a dot it never
   * applies, since no split part holds a dot.
   */
  lemma DotPatternIsPrefix(fieldName: string, csvName: string)
    ensures '.' !in csvName ==> (DotPattern(fieldName, ViewName(csvName)) <==> Text.StartsWith(fieldName, ViewName(csvName) + "."))
    ensures '.' in csvName ==> !DotPattern(fieldName, ViewName(csvName))
  {
    var view := ViewName(csvName);
    if '.' !in csvName {
      assert '.' !in view;
      Text.SplitFirst(fieldName, view, '.');
    } else {
      var k :| 0 <= k < |csvName| && csvName[k] == '.';
      assert view[k] == '.';
    }
  }

  /**
   * Under the underscore pattern the name is `<csv_name>_` followed by the
   * original with only whitespace around it: an original is found exactly
   * when some trimmed CSV field sits that way in the rest of the name, and
   * then it is that field.
   */
  lemma UnderscoreOriginalWithin(fieldName: string, csvName: string, csvFields: seq<string>)
    requires !DotPattern(fieldName, ViewName(csvName)) && UnderscorePattern(fieldName, csvName)
    ensures fieldName[..|csvName| + 1] == csvName + "_"
    ensures var r := ResolveOriginal(fieldName, csvName, csvFields);
            r.Some? ==> Text.Trimmed(r.value) && Text.Padded(r.value, fieldName[|csvName| + 1..])
    ensures ResolveOriginal(fieldName, csvName, csvFields).Some?
            <==> exists o :: o in csvFields && Text.Trimmed(o) && Text.Padded(o, fieldName[|csvName| + 1..])
  {
    var rest := fieldName[|csvName| + 1..];
    Text.StripWithin(rest);
    assert Text.Padded(Text.Strip(rest), rest);
    if exists o :: o in csvFields && Text.Trimmed(o) && Text.Padded(o, rest) {
      var o :| o in csvFields && Text.Trimmed(o) && Text.Padded(o, rest);
      Text.StripUnique(rest, o);
    }
  }

  /** What the loop does for one joined field: issue an `AlterField`, or leave it. */
  datatype Action = Rename(from: string, to: string) | Leave

  /**
   * A found, non-empty original other than `mnemonic` is renamed to unless
   * the field already carries that name; `mnemonic` and everything else is
   * left as it is.
   */
  function FieldAction(fieldName: string, csvName: string, csvFields: seq<string>): (a: Action)
    ensures a.Rename? ==> a.from == fieldName && a.to in csvFields && a.to != "mnemonic" && a.to != "" && a.to != fieldName
    ensures a.Leave? <==> match ResolveOriginal(fieldName, csvName, csvFields)
                          case None => true
                          case Some(o) => o == "" || o == "mnemonic" || o == fieldName
  {
    match ResolveOriginal(fieldName, csvName, csvFields)
    case None => Leave
    case Some(original) =>
      if original != "" && original != "mnemonic" && fieldName != original then Rename(fieldName, original) else Leave
  }

  /** The renames issued for a list of joined fields, in field order. */
  function Renames(fieldNames: seq<string>, csvName: string, csvFields: seq<string>): seq<(string, string)>
    decreases |fieldNames|
  {
    if fieldNames == [] then []
    else
      var n := |fieldNames| - 1;
      var a := FieldAction(fieldNames[n], csvName, csvFields);
      Renames(fieldNames[..n], csvName, csvFields) + (if a.Rename? then [(a.from, a.to)] else [])
  }

  /** Every rename is of a listed field, to a CSV field other than `mnemonic`, and changes the name. */
  lemma {:induction false} RenamesFacts(fieldNames: seq<string>, csvName: string, csvFields: seq<string>)
    ensures |Renames(fieldNames, csvName, csvFields)| <= |fieldNames|
    ensures forall r :: r in Renames(fieldNames, csvName, csvFields) ==>
              r.0 in fieldNames && r.1 in csvFields && r.1 != "mnemonic" && r.0 != r.1
    decreases |fieldNames|
  {
    if fieldNames != [] {
      var n := |fieldNames| - 1;
      RenamesFacts(fieldNames[..n], csvName, csvFields);
      forall r | r in Renames(fieldNames[..n], csvName, csvFields)
        ensures r.0 in fieldNames
      {
        var k :| 0 <= k < n && fieldNames[..n][k] == r.0;
        assert fieldNames[k] == r.0;
      }
    }
  }

  /**
   * The per-field loop over the joined layer's fields, which are listed
   * once before it starts: the `AlterField` calls it issues, in order.
   */
  method PlanRenames(fieldNames: seq<string>, csvName: string, csvFields: seq<string>)
    returns (renames: seq<(string, string)>)
    ensures renames == Renames(fieldNames, csvName, csvFields)
  {
    renames := [];
    for i := 0 to |fieldNames|
      invariant renames == Renames(fieldNames[..i], csvName, csvFields)
    {
      assert fieldNames[..i + 1][..i] == fieldNames[..i];
      var name := fieldNames[i];
      var original := ResolveOriginal(name, csvName, csvFields);
      if original.Some? && original.value != "" && original.value != "mnemonic" {
        if name != original.value {
          renames := renames + [(name, original.value)];
        }
      }
    }
    assert fieldNames[..|fieldNames|] == fieldNames;
  }
}
