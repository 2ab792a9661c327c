/**
 * The master indicator script: neighbourhood counts and sums, percent
 * areas, and the strings it hands to ArcPy — the retail weight code block,
 * the nuclear-status SQL filters and the weighted-average field
 * expressions for flood and radon risk.
 */
module MasterAnalysis {
  import opened Wrappers
  import opened FeatureTables
  import Dicts
  import Text
  import Indices

  /** The rows after this script's `add_and_zero_field`: a missing field is added as 0, an existing one is not touched. */
  function AfterAddIfMissing(fields: seq<Field>, rows: seq<Row>, name: string): (r: seq<Row>)
    ensures name in NamesOf(fields) ==> r == rows
    ensures name !in NamesOf(fields) ==> r == SetColumn(rows, name, Int(0))
  {
    if name in NamesOf(fields) then rows else SetColumn(rows, name, Int(0))
  }

  /** `add_and_zero_field`: only a field of a new name is added and set to 0; an existing field is left exactly as it is. */
  method AddAndZeroField(fc: FeatureClass, name: string, kind: FieldType)
    requires fc.Valid()
    modifies fc
    ensures fc.Valid()
    ensures name in old(fc.Names()) ==> fc.fields == old(fc.fields) && fc.rows == old(fc.rows)
    ensures name !in old(fc.Names()) ==> fc.fields == old(fc.fields) + [Field(name, kind)] && fc.Names() == old(fc.Names()) + [name]
    ensures fc.rows == AfterAddIfMissing(old(fc.fields), old(fc.rows), name)
  {
    if name !in fc.Names() {
      fc.AddZeroedField(name, kind);
    }
  }

  /** `analysis_type.upper() == 'COUNT'`. */
  predicate IsCount(analysisType: string) {
    Text.Upper(analysisType) == "COUNT"
  }

  /** The join field the summary is read from: `Join_Count` for a count, the output field otherwise. */
  function FieldToCheck(analysisType: string, out: string): string {
    if IsCount(analysisType) then "Join_Count" else out
  }

  /** The output field is LONG for a count and DOUBLE otherwise. */
  function OutFieldType(analysisType: string): FieldType {
    if IsCount(analysisType) then Integer else Double
  }

  /** Upper-casing a lower-cased character gives the upper-cased character. */
  lemma UpperLowerChar(c: char)
    ensures Text.UpperChar(Text.LowerChar(c)) == Text.UpperChar(c)
  {
  }

  /** Upper-casing forgets the case the string was written in. */
  lemma UpperOfLower(s: string)
    ensures Text.Upper(Text.Lower(s)) == Text.Upper(s)
  {
    forall k | 0 <= k < |s|
      ensures Text.Upper(Text.Lower(s))[k] == Text.Upper(s)[k]
    {
      UpperLowerChar(s[k]);
    }
  }

  /** The analysis type is matched case-insensitively: its lower-cased spelling selects the same field and type. */
  lemma AnalysisTypeCaseInsensitive(analysisType: string, out: string)
    ensures FieldToCheck(Text.Lower(analysisType), out) == FieldToCheck(analysisType, out)
    ensures OutFieldType(Text.Lower(analysisType)) == OutFieldType(analysisType)
  {
    UpperOfLower(analysisType);
  }

  predicate NeighbourhoodKept(id: Value, v: Value) {
    v != Null && Positive(v)
  }

  /**
   * The summary dict: the positive, non-`None` values of the join when the
   * field to check exists in it, empty when it does not.
   */
  function NeighbourhoodDict(fieldPresent: bool, join: seq<(Value, Value)>): (d: map<Value, Value>)
    ensures !fieldPresent ==> d == map[]
  {
    if fieldPresent then Dicts.Comprehension(join, NeighbourhoodKept) else map[]
  }

  /** An LSOA is in the summary dict exactly when one of its join values is positive; the value it holds is positive. */
  lemma NeighbourhoodDictFacts(join: seq<(Value, Value)>, id: Value)
    ensures id in NeighbourhoodDict(true, join) <==> exists j :: 0 <= j < |join| && join[j].0 == id && Positive(join[j].1)
    ensures id in NeighbourhoodDict(true, join) ==>
              Positive(NeighbourhoodDict(true, join)[id]) && exists j :: 0 <= j < |join| && join[j] == (id, NeighbourhoodDict(true, join)[id])
  {
    Dicts.ComprehensionKeys(join, NeighbourhoodKept, id);
    if id in NeighbourhoodDict(true, join) {
      Dicts.ComprehensionValue(join, NeighbourhoodKept, id);
    }
  }

  /**
   * `summarize_in_neighbourhood` after the spatial join: the dict is read
   * from the join's field to check, the output field is added when
   * missing, and each LSOA in the dict takes its value.
   */
  method SummarizeInNeighbourhood(fc: FeatureClass, key: string, out: string, analysisType: string,
                                  joinFields: seq<string>, join: seq<(Value, Value)>)
    requires fc.Valid() && key in fc.Names() && key != out
    modifies fc
    ensures fc.Valid()
    ensures out !in old(fc.Names()) ==> fc.fields == old(fc.fields) + [Field(out, OutFieldType(analysisType))]
    ensures out in old(fc.Names()) ==> fc.fields == old(fc.fields)
    ensures fc.rows == Updated(AfterAddIfMissing(old(fc.fields), old(fc.rows), out), key, out,
                               NeighbourhoodDict(FieldToCheck(analysisType, out) in joinFields, join))
  {
    var fieldToCheck := FieldToCheck(analysisType, out);
    var summaryDict := NeighbourhoodDict(fieldToCheck in joinFields, join);
    AddAndZeroField(fc, out, OutFieldType(analysisType));
    fc.UpdateFromDict(key, out, summaryDict);
  }

  /**
   * After a neighbourhood summary, a row whose LSOA is in the dict holds its
   * positive value; any other row keeps what it had, or 0 on a new field.
   */
  lemma NeighbourhoodRow(fields: seq<Field>, rows: seq<Row>, key: string, out: string, dict: map<Value, Value>, i: nat)
    requires Table(fields, rows) && key in NamesOf(fields) && key != out && i < |rows|
    ensures var r := Updated(AfterAddIfMissing(fields, rows, out), key, out, dict);
            |r| == |rows|
            && (rows[i][key] in dict ==> r[i][out] == dict[rows[i][key]])
            && (rows[i][key] !in dict && out in NamesOf(fields) ==> r[i] == rows[i])
            && (rows[i][key] !in dict && out !in NamesOf(fields) ==> r[i][out] == Int(0))
  {
    assert key in rows[i];
  }

  /**
   * `calculate_percent_area` of this script: the dissolved intersection's
   * areas are read into a dict without a filter, and an LSOA with an entry
   * and a positive area gets its covered percentage.
   */
  method CalculatePercentArea(fc: FeatureClass, key: string, area: string, out: string, pieces: seq<(Value, real)>)
    requires fc.Valid() && key in fc.Names() && area in fc.Names() && out != key && out != area
    modifies fc
    ensures fc.Valid()
    ensures fc.rows == RatioUpdated(AfterAddIfMissing(old(fc.fields), old(fc.rows), out), key, area, out, Dicts.Assoc(pieces), Percent)
  {
    AddAndZeroField(fc, out, Double);
    var sumDict := Dicts.Assoc(pieces);
    fc.UpdateRatio(key, area, out, sumDict, Percent);
  }

  // ---------------------------------------------------------------- retail

  /** `retail_weights`, in dict order. */
  const RetailWeights: seq<(string, int)> := [
    ("Small Local Centre", 1), ("Local Centre", 2), ("Small Retail Park", 2),
    ("District Centre", 3), ("Town Centre", 3), ("Market Town", 3),
    ("Large Retail Park", 4), ("Major Town Centre", 4),
    ("Regional Centre", 5)
  ]

  function Keys(weights: seq<(string, int)>): (ks: seq<string>)
    ensures |ks| == |weights| && forall i :: 0 <= i < |weights| ==> ks[i] == weights[i].0
  {
    seq(|weights|, i requires 0 <= i < |weights| => weights[i].0)
  }

  const CodeHeader: string := "def get_weight(classification):"
  const ElseLine: string := "    else: return 0"

  /** `f"    if classification == '{key}': return {value}"`. */
  function IfLine(key: string, value: int): string {
    "    if classification == '" + key + "': return " + Text.IntToString(value)
  }

  /** One `if` line per weight, in dict order. */
  function IfLines(weights: seq<(string, int)>): (lines: seq<string>)
    ensures |lines| == |weights|
    ensures forall i :: 0 <= i < |weights| ==> lines[i] == IfLine(weights[i].0, weights[i].1)
  {
    seq(|weights|, i requires 0 <= i < |weights| => IfLine(weights[i].0, weights[i].1))
  }

  /** The lines of the code block: the `def`, the `if` lines, the `else`. */
  function CodeLines(weights: seq<(string, int)>): (lines: seq<string>)
    ensures |lines| == |weights| + 2 && lines[0] == CodeHeader && lines[|lines| - 1] == ElseLine
    ensures forall i :: 0 <= i < |weights| ==> lines[i + 1] == IfLine(weights[i].0, weights[i].1)
  {
    var ifs := IfLines(weights);
    var lines := [CodeHeader] + ifs + [ElseLine];
    assert forall i :: 0 <= i < |weights| ==> lines[i + 1] == ifs[i];
    lines
  }

  /** Appending the next line and a newline to the text of the lines so far extends it by that line. */
  lemma JoinStep(lines: seq<string>, i: nat, code: string)
    requires i + 1 < |lines| && code == Text.Join("\n", lines[..i + 1]) + "\n"
    ensures code + lines[i + 1] + "\n" == Text.Join("\n", lines[..i + 2]) + "\n"
  {
    assert lines[..i + 2] == lines[..i + 1] + [lines[i + 1]];
    Text.JoinSnoc("\n", lines[..i + 1], lines[i + 1]);
  }

  /**
   * The `retail_expr` loop of `main`: the `def` line, then each weight's
   * `if` line, each ended by a newline, then the `else` line.
   */
  method BuildRetailCode(weights: seq<(string, int)>) returns (code: string)
    ensures code == Text.Join("\n", CodeLines(weights))
  {
    ghost var lines := CodeLines(weights);
    assert lines[..1] == [CodeHeader];
    code := CodeHeader + "\n";
    for i := 0 to |weights|
      invariant code == Text.Join("\n", lines[..i + 1]) + "\n"
    {
      var line := IfLine(weights[i].0, weights[i].1);
      assert lines[i + 1] == line;
      JoinStep(lines, i, code);
      code := code + line + "\n";
    }
    ghost var done := lines[..|weights| + 1];
    assert done + [ElseLine] == lines;
    Text.JoinSnoc("\n", done, ElseLine);
    code := code + ElseLine;
  }

  /** A classification with no newline or single quote, which would break the generated code. */
  predicate PlainKey(key: string) {
    '\n' !in key && '\'' !in key
  }

  /** An `if` line of a plain classification is one line. */
  lemma IfLineOneLine(key: string, value: int)
    requires PlainKey(key)
    ensures '\n' !in IfLine(key, value)
  {
    IntOneLine(value);
    var s := IfLine(key, value);
    assert s == "    if classification == '" + key + "': return " + Text.IntToString(value);
  }

  /** `str` of a number holds no newline. */
  lemma IntOneLine(value: int)
    ensures '\n' !in Text.IntToString(value)
  {
    var n := Text.NatToString(if value < 0 then -value else value);
    assert forall k :: 0 <= k < |n| ==> n[k] != '\n';
  }

  /** Splitting the code block at its newlines gives back exactly its lines. */
  lemma RetailCodeLines(weights: seq<(string, int)>)
    requires forall i :: 0 <= i < |weights| ==> PlainKey(weights[i].0)
    ensures Text.Split(Text.Join("\n", CodeLines(weights)), '\n') == CodeLines(weights)
  {
    var lines := CodeLines(weights);
    forall k | 0 <= k < |lines|
      ensures '\n' !in lines[k]
    {
      if k == 0 || k == |lines| - 1 {
        FixedLinesOneLine();
      } else {
        IfLineOneLine(weights[k - 1].0, weights[k - 1].1);
      }
    }
    Text.SplitJoin(lines, '\n');
  }

  /** The `def` and `else` lines are single lines. */
  lemma FixedLinesOneLine()
    ensures '\n' !in CodeHeader && '\n' !in ElseLine
  {
    assert forall k :: 0 <= k < |CodeHeader| ==> CodeHeader[k] != '\n';
    assert forall k :: 0 <= k < |ElseLine| ==> ElseLine[k] != '\n';
  }

  /** What `get_weight(classification)` returns: the value of the first `if` whose key matches, else 0. */
  function GetWeight(weights: seq<(string, int)>, classification: string): int
    decreases |weights|
  {
    if weights == [] then 0
    else if classification == weights[0].0 then weights[0].1
    else GetWeight(weights[1..], classification)
  }

  /** With distinct keys, as a dict has, the code returns each key's own weight. */
  lemma {:induction false} GetWeightOfKey(weights: seq<(string, int)>, i: nat)
    requires Indices.Distinct(Keys(weights)) && i < |weights|
    ensures GetWeight(weights, weights[i].0) == weights[i].1
    decreases |weights|
  {
    if i > 0 {
      assert Keys(weights)[0] != Keys(weights)[i];
      assert Indices.Distinct(Keys(weights[1..])) by {
        assert forall a :: 0 <= a < |weights| - 1 ==> Keys(weights[1..])[a] == Keys(weights)[a + 1];
      }
      GetWeightOfKey(weights[1..], i - 1);
    }
  }

  /** A classification that is not a key gets weight 0. */
  lemma {:induction false} GetWeightOfOther(weights: seq<(string, int)>, classification: string)
    requires forall i :: 0 <= i < |weights| ==> weights[i].0 != classification
    ensures GetWeight(weights, classification) == 0
    decreases |weights|
  {
    if weights != [] {
      assert forall i :: 0 <= i < |weights| - 1 ==> weights[1..][i] == weights[i + 1];
      GetWeightOfOther(weights[1..], classification);
    }
  }

  /** The retail classifications are distinct, so each gets its own weight from the code block. */
  lemma RetailKeysDistinct()
    ensures Indices.Distinct(Keys(RetailWeights))
  {
    var ks := Keys(RetailWeights);
    assert ks == ["Small Local Centre", "Local Centre", "Small Retail Park", "District Centre", "Town Centre",
                  "Market Town", "Large Retail Park", "Major Town Centre", "Regional Centre"];
  }

  /** Each retail classification gets its own weight from the generated `get_weight`. */
  lemma RetailWeightOf(i: nat)
    requires i < |RetailWeights|
    ensures GetWeight(RetailWeights, RetailWeights[i].0) == RetailWeights[i].1
  {
    RetailKeysDistinct();
    GetWeightOfKey(RetailWeights, i);
  }

  // --------------------------------------------------------------- nuclear

  /** `nuclear_weights["high"]` and `nuclear_weights["medium"]`. */
  const NuclearHigh: seq<string> := ["Operational", "Defuelling", "Under Construction", "Proposed New Build"]
  const NuclearMedium: seq<string> := ["Decommissioning", "Under Decommissioning", "Permanent Shutdown"]

  /** How `repr` writes one character inside a string quoted by `quote`. */
  function EscapeChar(c: char, quote: char): string {
    if c == '\\' then "\\\\"
    else if c == quote then ['\\', quote]
    else if c == '\n' then "\\n"
    else if c == '\r' then "\\r"
    else if c == '\t' then "\\t"
    else [c]
  }

  function Escape(s: string, quote: char): string
    decreases |s|
  {
    if s == [] then "" else Escape(s[..|s| - 1], quote) + EscapeChar(s[|s| - 1], quote)
  }

  /** `repr(s)`: single quotes, unless the string holds a single quote and no double quote. */
  function StrRepr(s: string): string {
    var quote := if '\'' in s && '"' !in s then '"' else '\'';
    [quote] + Escape(s, quote) + [quote]
  }

  function Reprs(items: seq<string>): (r: seq<string>)
    ensures |r| == |items| && forall i :: 0 <= i < |items| ==> r[i] == StrRepr(items[i])
  {
    seq(|items|, i requires 0 <= i < |items| => StrRepr(items[i]))
  }

  /** `str(items)` for a list of strings. */
  function ListRepr(items: seq<string>): string {
    "[" + Text.Join(", ", Reprs(items)) + "]"
  }

  /** `f"{field} IN ({str(items)[1:-1]})"`. */
  function InClause(field: string, items: seq<string>): string {
    var r := ListRepr(items);
    field + " IN (" + r[1..|r| - 1] + ")"
  }

  /** A string with nothing for `repr` to escape. */
  predicate Plain(s: string) {
    forall k :: 0 <= k < |s| ==> s[k] != '\'' && s[k] != '\\' && s[k] != '\n' && s[k] != '\r' && s[k] != '\t'
  }

  /** Every status of a list is plain. */
  predicate AllPlain(items: seq<string>) {
    forall i :: 0 <= i < |items| ==> Plain(items[i])
  }

  lemma {:induction false} EscapePlain(s: string)
    requires Plain(s)
    ensures Escape(s, '\'') == s
    decreases |s|
  {
    if s != [] {
      var n := |s| - 1;
      assert Plain(s[..n]);
      EscapePlain(s[..n]);
      assert s[..n] + [s[n]] == s;
    }
  }

  /** A plain string is written as the SQL literal `'s'`. */
  lemma PlainRepr(s: string)
    requires Plain(s)
    ensures StrRepr(s) == "'" + s + "'"
  {
    assert '\'' !in s;
    EscapePlain(s);
  }

  /**
   * Stripping the brackets of the list's repr leaves the quoted items
   * joined by `, `: for plain statuses, the SQL `IN` list of their literals.
   */
  lemma InClauseOfPlain(field: string, items: seq<string>)
    requires AllPlain(items)
    ensures InClause(field, items) == field + " IN (" + Text.Join(", ", Text.Quoted(items)) + ")"
  {
    forall i | 0 <= i < |items|
      ensures Reprs(items)[i] == Text.Quoted(items)[i]
    {
      PlainRepr(items[i]);
    }
    assert Reprs(items) == Text.Quoted(items);
    var r := ListRepr(items);
    assert r[1..|r| - 1] == Text.Join(", ", Reprs(items));
  }

  /** The statuses of both nuclear lists have nothing for `repr` to escape. */
  lemma NuclearHighPlain()
    ensures AllPlain(NuclearHigh)
  {
    assert Plain("Operational") && Plain("Defuelling");
    assert Plain("Under Construction");
    assert Plain("Proposed New Build");
  }

  lemma NuclearMediumPlain()
    ensures AllPlain(NuclearMedium)
  {
    assert Plain("Decommissioning");
    assert Plain("Under Decommissioning");
    assert Plain("Permanent Shutdown");
  }

  // ------------------------------------------------------------ weighted averages

  /** A field-calculator expression of the kinds `main` writes. */
  datatype Expr =
    | Ref(field: string)
    | Weighted(field: string, weight: int)
    | Plus(left: Expr, right: Expr)
    | GuardedRatio(num: Expr, den: Expr)

  /** `str(w)` of a whole-number float weight such as `3.0`. */
  function WeightText(w: int): string {
    Text.IntToString(w) + ".0"
  }

  /** The expression's text as `main` formats it. */
  function Render(e: Expr): string {
    match e
    case Ref(f) => "!" + f + "!"
    case Weighted(f, w) => "(!" + f + "! * " + WeightText(w) + ")"
    case Plus(a, b) => Render(a) + " + " + Render(b)
    case GuardedRatio(n, d) => "(" + Render(n) + ") / (" + Render(d) + ") if (" + Render(d) + ") > 0 else 0"
  }

  /** What the field calculator computes for a row whose fields hold `env`. */
  function Eval(e: Expr, env: string -> real): real {
    match e
    case Ref(f) => env(f)
    case Weighted(f, w) => env(f) * (w as real)
    case Plus(a, b) => Eval(a, env) + Eval(b, env)
    case GuardedRatio(n, d) => if Eval(d, env) > 0.0 then Eval(n, env) / Eval(d, env) else 0.0
  }

  /** One risk class: the field holding its percentage and its weight. */
  datatype Term = Term(field: string, weight: int)

  /** `f"{prefix}{risk_val}"` for every class of a weights dict, with its weight. */
  function ClassTerms(prefix: string, weights: seq<(int, int)>): (ts: seq<Term>)
    ensures |ts| == |weights|
    ensures forall i :: 0 <= i < |weights| ==> ts[i] == Term(prefix + Text.IntToString(weights[i].0), weights[i].1)
  {
    seq(|weights|, i requires 0 <= i < |weights| => Term(prefix + Text.IntToString(weights[i].0), weights[i].1))
  }

  /** The numerator: the weighted percentage fields added in order. */
  function NumeratorOf(ts: seq<Term>): Expr
    requires ts != []
    decreases |ts|
  {
    var n := |ts| - 1;
    var term := Weighted(ts[n].field, ts[n].weight);
    if n == 0 then term else Plus(NumeratorOf(ts[..n]), term)
  }

  /** The denominator: the percentage fields added in order. */
  function DenominatorOf(ts: seq<Term>): Expr
    requires ts != []
    decreases |ts|
  {
    var n := |ts| - 1;
    var term := Ref(ts[n].field);
    if n == 0 then term else Plus(DenominatorOf(ts[..n]), term)
  }

  /** The weighted average of the class percentages, 0 when they add up to nothing. */
  function WeightedAverage(ts: seq<Term>): Expr
    requires ts != []
  {
    GuardedRatio(NumeratorOf(ts), DenominatorOf(ts))
  }

  /** The sum of the weighted class percentages. */
  function WeightedSum(ts: seq<Term>, env: string -> real): real
    decreases |ts|
  {
    if ts == [] then 0.0
    else
      var n := |ts| - 1;
      WeightedSum(ts[..n], env) + env(ts[n].field) * (ts[n].weight as real)
  }

  /** The sum of the class percentages. */
  function Coverage(ts: seq<Term>, env: string -> real): real
    decreases |ts|
  {
    if ts == [] then 0.0
    else
      var n := |ts| - 1;
      Coverage(ts[..n], env) + env(ts[n].field)
  }

  lemma {:induction false} EvalNumerator(ts: seq<Term>, env: string -> real)
    requires ts != []
    ensures Eval(NumeratorOf(ts), env) == WeightedSum(ts, env)
    decreases |ts|
  {
    var n := |ts| - 1;
    if n > 0 {
      EvalNumerator(ts[..n], env);
    } else {
      assert ts[..n] == [];
    }
  }

  lemma {:induction false} EvalDenominator(ts: seq<Term>, env: string -> real)
    requires ts != []
    ensures Eval(DenominatorOf(ts), env) == Coverage(ts, env)
    decreases |ts|
  {
    var n := |ts| - 1;
    if n > 0 {
      EvalDenominator(ts[..n], env);
    } else {
      assert ts[..n] == [];
    }
  }

  /**
   * The expression computes the coverage-weighted mean of the class weights,
   * and 0 (never a division by zero) when the classes cover nothing.
   */
  lemma EvalWeightedAverage(ts: seq<Term>, env: string -> real)
    requires ts != []
    ensures Coverage(ts, env) > 0.0 ==> Eval(WeightedAverage(ts), env) == WeightedSum(ts, env) / Coverage(ts, env)
    ensures Coverage(ts, env) <= 0.0 ==> Eval(WeightedAverage(ts), env) == 0.0
  {
    EvalNumerator(ts, env);
    EvalDenominator(ts, env);
  }

  /** Every class has a non-negative percentage and a weight between `lo` and `hi`. */
  predicate InRange(ts: seq<Term>, env: string -> real, lo: int, hi: int) {
    forall i :: 0 <= i < |ts| ==> lo <= ts[i].weight <= hi && env(ts[i].field) >= 0.0
  }

  /** The weighted sum lies between the smallest and the largest weight times the coverage. */
  lemma {:induction false} WeightedSumBounds(ts: seq<Term>, env: string -> real, lo: int, hi: int)
    requires InRange(ts, env, lo, hi)
    ensures (lo as real) * Coverage(ts, env) <= WeightedSum(ts, env) <= (hi as real) * Coverage(ts, env)
    decreases |ts|
  {
    if ts != [] {
      var n := |ts| - 1;
      var front := ts[..n];
      assert InRange(front, env, lo, hi) by {
        assert forall i :: 0 <= i < n ==> front[i] == ts[i];
      }
      WeightedSumBounds(front, env, lo, hi);
      assert lo <= ts[n].weight <= hi && env(ts[n].field) >= 0.0;
      StepBounds(Coverage(front, env), WeightedSum(front, env), env(ts[n].field), ts[n].weight as real, lo as real, hi as real);
    }
  }

  lemma StepBounds(c: real, s: real, x: real, w: real, lo: real, hi: real)
    requires lo * c <= s <= hi * c && x >= 0.0 && lo <= w <= hi
    ensures lo * (c + x) <= s + x * w <= hi * (c + x)
  {
    assert lo * x <= x * w <= hi * x by {
      MulMonotone(x, lo, w);
      MulMonotone(x, w, hi);
    }
    assert lo * (c + x) == lo * c + lo * x;
    assert hi * (c + x) == hi * c + hi * x;
  }

  lemma MulMonotone(x: real, a: real, b: real)
    requires x >= 0.0 && a <= b
    ensures a * x <= x * b
  {
  }

  /** With non-negative percentages that cover something, the risk lies between the smallest and largest weight. */
  lemma WeightedAverageBounds(ts: seq<Term>, env: string -> real, lo: int, hi: int)
    requires ts != [] && InRange(ts, env, lo, hi) && Coverage(ts, env) > 0.0
    ensures lo as real <= Eval(WeightedAverage(ts), env) <= hi as real
  {
    var s, c := WeightedSum(ts, env), Coverage(ts, env);
    WeightedSumBounds(ts, env, lo, hi);
    DivBounds(s, c, lo as real, hi as real);
    EvalWeightedAverage(ts, env);
  }

  lemma DivBounds(s: real, c: real, lo: real, hi: real)
    requires c > 0.0 && lo * c <= s <= hi * c
    ensures lo <= s / c <= hi
  {
    assert (lo * c) / c == lo && (hi * c) / c == hi;
  }

  /** One more class extends both running sums by its term and `" + "`. */
  lemma SumsStep(ts: seq<Term>, i: nat, numerator: string, denominator: string)
    requires i < |ts|
    requires i == 0 ==> numerator == "" && denominator == ""
    requires i > 0 ==> numerator == Render(NumeratorOf(ts[..i])) + " + " && denominator == Render(DenominatorOf(ts[..i])) + " + "
    ensures numerator + Render(Weighted(ts[i].field, ts[i].weight)) + " + " == Render(NumeratorOf(ts[..i + 1])) + " + "
    ensures denominator + Render(Ref(ts[i].field)) + " + " == Render(DenominatorOf(ts[..i + 1])) + " + "
  {
    var last := ts[..i + 1];
    assert last[..i] == ts[..i] && last[i] == ts[i];
    if i == 0 {
      assert NumeratorOf(last) == Weighted(ts[i].field, ts[i].weight);
      assert DenominatorOf(last) == Ref(ts[i].field);
    } else {
      var w, r := Weighted(ts[i].field, ts[i].weight), Ref(ts[i].field);
      assert NumeratorOf(last) == Plus(NumeratorOf(ts[..i]), w);
      assert DenominatorOf(last) == Plus(DenominatorOf(ts[..i]), r);
      Regroup(Render(NumeratorOf(ts[..i])), " + ", Render(w));
      Regroup(Render(DenominatorOf(ts[..i])), " + ", Render(r));
    }
  }

  lemma Regroup(a: string, plus: string, b: string)
    ensures a + plus + b + plus == (a + plus + b) + plus
  {
  }

  /** Dropping the last `" + "` of a running sum leaves the sum. */
  lemma DropPlus(s: string, t: string)
    requires s == t + " + "
    ensures |s| >= 3 && s[..|s| - 3] == t
  {
  }

  /**
   * The radon loop of `main`: one numerator and one denominator term per
   * class, each followed by `" + "`; `[:-3]` drops the last `" + "`, and
   * the field is calculated only when there were terms.
   */
  method BuildWeightedAverage(prefix: string, weights: seq<(int, int)>) returns (expression: Option<string>)
    ensures expression.None? <==> weights == []
    ensures weights != [] ==> expression == Some(Render(WeightedAverage(ClassTerms(prefix, weights))))
  {
    ghost var ts := ClassTerms(prefix, weights);
    var numerator, denominator := "", "";
    for i := 0 to |weights|
      invariant i == 0 ==> numerator == "" && denominator == ""
      invariant i > 0 ==> numerator == Render(NumeratorOf(ts[..i])) + " + "
      invariant i > 0 ==> denominator == Render(DenominatorOf(ts[..i])) + " + "
    {
      var (riskVal, weight) := weights[i];
      var field := prefix + Text.IntToString(riskVal);
      assert ts[i] == Term(field, weight);
      SumsStep(ts, i, numerator, denominator);
      var weighted := "(!" + field + "! * " + WeightText(weight) + ")";
      var ref := "!" + field + "!";
      numerator := numerator + weighted + " + ";
      denominator := denominator + ref + " + ";
    }
    if numerator != "" {
      assert ts[..|weights|] == ts;
      DropPlus(numerator, Render(NumeratorOf(ts)));
      DropPlus(denominator, Render(DenominatorOf(ts)));
      var num := numerator[..|numerator| - 3];
      var den := denominator[..|denominator| - 3];
      expression := Some("(" + num + ") / (" + den + ") if (" + den + ") > 0 else 0");
    } else {
      expression := None;
    }
  }

  /** `radon_weights` and `flood_weights`: class value to whole-number weight, in dict order. */
  const RadonWeights: seq<(int, int)> := [(3, 3), (4, 4), (5, 5), (6, 6)]
  const FloodWeights: seq<(int, int)> := [(1, 1), (2, 2)]

  /**
   * The flood numerator, denominator and expression `main` writes out for
   * the two flood classes, piece by piece as its f-strings put them together.
   */
  const FloodClass1: string := "FloodPct_Class1"
  const FloodClass2: string := "FloodPct_Class2"
  const FloodNumerator: string :=
    "(!" + FloodClass1 + "! * " + WeightText(1) + ")" + " + " + "(!" + FloodClass2 + "! * " + WeightText(2) + ")"
  const FloodDenominator: string := "!" + FloodClass1 + "!" + " + " + "!" + FloodClass2 + "!"
  const FloodExpression: string :=
    "(" + FloodNumerator + ") / (" + FloodDenominator + ") if (" + FloodDenominator + ") > 0 else 0"

  /** The flood classes' fields and weights. */
  lemma FloodTerms()
    ensures ClassTerms("FloodPct_Class", FloodWeights) == [Term(FloodClass1, 1), Term(FloodClass2, 2)]
  {
    var ts := ClassTerms("FloodPct_Class", FloodWeights);
    assert Text.IntToString(1) == "1" && Text.IntToString(2) == "2";
    assert ts[0] == Term(FloodClass1, 1);
    assert ts[1] == Term(FloodClass2, 2);
  }

  /** The hand-written flood expression is the weighted average the radon loop would build for the flood classes. */
  lemma FloodIsWeightedAverage()
    ensures Render(WeightedAverage(ClassTerms("FloodPct_Class", FloodWeights))) == FloodExpression
  {
    FloodTerms();
    var ts := [Term(FloodClass1, 1), Term(FloodClass2, 2)];
    assert ts[..1] == [ts[0]];
    assert Render(NumeratorOf(ts)) == FloodNumerator;
    assert Render(DenominatorOf(ts)) == FloodDenominator;
  }
}
