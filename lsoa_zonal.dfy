/**
 * Aggregating a mosaic raster to LSOAs: the LSOA codes found in the
 * spatial join's code column are collected, deduplicated and sorted,
 * turned into an SQL `IN` filter, and the zonal statistics table is named
 * after the raster.
 */
module LsoaZonal {
  import opened Wrappers
  import Text
  import Indices

  /** The LSOA code field (`LSOA_ID_FIELD`). */
  const IdField: string := "LSOA21CD"

  /** The statistics requested (`STATISTICS_TO_CALCULATE`). */
  const Statistics: seq<string> := ["ALL"]

  /** `if row[0]:` on a text value read by the cursor: present and non-empty. */
  predicate Truthy(v: Option<string>) {
    v.Some? && v.value != ""
  }

  /** The truthy codes of the join's code column, in cursor order, repeats kept. */
  function TruthyCodes(column: seq<Option<string>>): seq<string>
    decreases |column|
  {
    if column == [] then []
    else
      var n := |column| - 1;
      TruthyCodes(column[..n]) + (if Truthy(column[n]) then [column[n].value] else [])
  }

  /** A code is collected exactly when it occurs in the column and is non-empty. */
  lemma {:induction false} TruthyCodesMembers(column: seq<Option<string>>)
    ensures forall c :: c in TruthyCodes(column) <==> Some(c) in column && c != ""
    ensures |TruthyCodes(column)| <= |column|
    decreases |column|
  {
    if column != [] {
      var n := |column| - 1;
      TruthyCodesMembers(column[..n]);
      assert column == column[..n] + [column[n]];
    }
  }

  /** The SearchCursor loop that appends every truthy code. */
  method CollectCodes(column: seq<Option<string>>) returns (codes: seq<string>)
    ensures codes == TruthyCodes(column)
  {
    codes := [];
    for i := 0 to |column|
      invariant codes == TruthyCodes(column[..i])
    {
      assert column[..i + 1][..i] == column[..i];
      if Truthy(column[i]) {
        codes := codes + [column[i].value];
      }
    }
    assert column[..|column|] == column;
  }

  /** Strictly ascending in Python's string order, hence free of repeats. */
  predicate Ascending(s: seq<string>) {
    forall i, j :: 0 <= i < j < |s| ==> Text.Below(s[i], s[j])
  }

  lemma AscendingDistinct(s: seq<string>)
    requires Ascending(s)
    ensures Indices.Distinct(s)
  {
    forall i, j | 0 <= i < j < |s|
      ensures s[i] != s[j]
    {
      if s[i] == s[j] {
        Text.BelowIrreflexive(s[i]);
      }
    }
  }

  /** `x` put in its place in an ascending list, unless it is there already. */
  function Insert(x: string, s: seq<string>): (r: seq<string>)
    requires Ascending(s)
    ensures Ascending(r)
    ensures forall c :: c in r <==> c == x || c in s
    decreases |s|
  {
    if s == [] then [x]
    else if x == s[0] then s
    else if Text.Below(x, s[0]) then
      assert forall j :: 0 < j < |s| ==> Text.Below(x, s[j]) by {
        forall j | 0 < j < |s|
          ensures Text.Below(x, s[j])
        {
          Text.BelowTransitive(x, s[0], s[j]);
        }
      }
      [x] + s
    else
      Text.BelowTotal(x, s[0]);
      var rest := Insert(x, s[1..]);
      assert forall c :: c in rest ==> Text.Below(s[0], c);
      [s[0]] + rest
  }

  /** `sorted(list(set(codes)))`. */
  function SortedSet(codes: seq<string>): (r: seq<string>)
    ensures Ascending(r)
    ensures forall c :: c in r <==> c in codes
    decreases |codes|
  {
    if codes == [] then []
    else
      var n := |codes| - 1;
      assert forall c :: c in codes <==> c in codes[..n] || c == codes[n] by {
        assert codes == codes[..n] + [codes[n]];
      }
      Insert(codes[n], SortedSet(codes[..n]))
  }

  /**
   * An ascending list is determined by its members: whatever way it is
   * computed, `sorted(set(codes))` is the one ascending list of the codes.
   */
  lemma {:induction false} AscendingUnique(a: seq<string>, b: seq<string>)
    requires Ascending(a) && Ascending(b)
    requires forall c :: c in a <==> c in b
    ensures a == b
    decreases |a|
  {
    SameMembersEmpty(a, b);
    if a != [] {
      if a[0] != b[0] {
        assert b[0] in b && a[0] in a;
        var i :| 0 <= i < |a| && a[i] == b[0];
        var j :| 0 <= j < |b| && b[j] == a[0];
        Text.BelowTotal(a[0], b[0]);
      }
      forall c
        ensures c in a[1..] ==> c in b[1..]
        ensures c in b[1..] ==> c in a[1..]
      {
        if c in a[1..] {
          TailMember(a, b, c);
        }
        if c in b[1..] {
          TailMember(b, a, c);
        }
      }
      AscendingUnique(a[1..], b[1..]);
      assert a == [a[0]] + a[1..] && b == [b[0]] + b[1..];
    }
  }

  lemma SameMembersEmpty(a: seq<string>, b: seq<string>)
    requires forall c :: c in a <==> c in b
    ensures a == [] <==> b == []
  {
    if a != [] {
      assert a[0] in b;
    }
    if b != [] {
      assert b[0] in a;
    }
  }

  lemma TailMember(a: seq<string>, b: seq<string>, c: string)
    requires Ascending(a) && Ascending(b) && a != [] && b != [] && a[0] == b[0]
    requires forall x :: x in a <==> x in b
    requires c in a[1..]
    ensures c in b[1..]
  {
    var i :| 0 <= i < |a| - 1 && a[1..][i] == c;
    assert a[i + 1] == c && Text.Below(a[0], c);
    assert c in b;
    var j :| 0 <= j < |b| && b[j] == c;
    if j == 0 {
      Text.BelowIrreflexive(c);
    } else {
      assert b[1..][j - 1] == c;
    }
  }

  /** `len(unique_lsoas)` is the number of distinct truthy codes. */
  lemma UniqueCount(column: seq<Option<string>>)
    ensures var unique := SortedSet(TruthyCodes(column));
            |unique| == |set c | c in TruthyCodes(column)|
  {
    var codes := TruthyCodes(column);
    var unique := SortedSet(codes);
    AscendingDistinct(unique);
    Indices.DistinctCardinality(unique);
    assert (set c | c in unique) == (set c | c in codes);
  }

  /** `', '.join(f"'{code}'" for code in unique_lsoas)`. */
  function CodeString(codes: seq<string>): string {
    Text.Join(", ", Text.Quoted(codes))
  }

  /** `f'"{LSOA_ID_FIELD}" IN ({code_string})'`. */
  function Query(codes: seq<string>): (q: string)
    ensures |q| >= |QueryHead()| + 1 && q[|q| - 1] == ')'
    ensures q[..|QueryHead()|] == QueryHead() && q[|QueryHead()|..|q| - 1] == CodeString(codes)
  {
    QueryHead() + CodeString(codes) + ")"
  }

  function QueryHead(): string {
    "\"" + IdField + "\" IN ("
  }

  /**
   * A quoted list laid out around its quote marks: an empty piece, then
   * each code followed by the separator that parts it from the next, and
   * an empty piece at the end.
   */
  function Around(codes: seq<string>, sep: string): (p: seq<string>)
    ensures |p| == 2 * |codes| + 1
    ensures forall i :: 0 <= i < |codes| ==> p[2 * i + 1] == codes[i]
    ensures p[0] == [] && p[2 * |codes|] == []
    ensures forall i :: 0 < i < |codes| ==> p[2 * i] == sep
    decreases |codes|
  {
    if codes == [] then [[]]
    else
      var rest := Around(codes[1..], sep);
      assert forall i :: 0 < i < |codes| ==> rest[2 * (i - 1) + 1] == codes[i];
      var p := [[], codes[0], if |codes| == 1 then [] else sep] + rest[1..];
      assert forall i :: 1 < i < |codes| ==> p[2 * i] == rest[2 * (i - 1)];
      p
  }

  lemma JoinCons(sep: string, a: string, rest: seq<string>)
    requires rest != []
    ensures Text.Join(sep, [a] + rest) == a + sep + Text.Join(sep, rest)
  {
    assert ([a] + rest)[1..] == rest;
  }

  /** The regrouping of one step of the quoted list. */
  lemma Regroup(qt: string, c: string, sep: string, j: string)
    ensures qt + c + qt + sep + ([] + qt + j) == [] + qt + (c + qt + (sep + qt + j))
  {
  }

  lemma JoinAroundSingle(c: string, sep: string, qt: string)
    ensures Text.Join(sep, [qt + c + qt]) == Text.Join(qt, Around([c], sep))
  {
    assert [c][1..] == [];
    assert Around([c], sep) == [[]] + ([c] + [[]]);
    JoinCons(qt, [], [c] + [[]]);
    JoinCons(qt, c, [[]]);
    assert Text.Join(qt, Around([c], sep)) == [] + qt + (c + qt + []);
  }

  /** Items each between two quote marks and joined by a separator are the layout joined by the quote mark. */
  lemma {:induction false} JoinAround(codes: seq<string>, sep: string, qt: string, quoted: seq<string>)
    requires |quoted| == |codes| && forall i :: 0 <= i < |codes| ==> quoted[i] == qt + codes[i] + qt
    ensures Text.Join(sep, quoted) == Text.Join(qt, Around(codes, sep))
    decreases |codes|
  {
    if |codes| == 1 {
      assert codes == [codes[0]] && quoted == [qt + codes[0] + qt];
      JoinAroundSingle(codes[0], sep, qt);
    } else if |codes| > 1 {
      JoinAround(codes[1..], sep, qt, quoted[1..]);
      assert quoted == [quoted[0]] + quoted[1..];
      JoinCons(sep, quoted[0], quoted[1..]);
      JoinAroundStep(codes[0], codes[1..], sep, qt);
      assert codes == [codes[0]] + codes[1..];
    }
  }

  /** One more item in front: the layout grows by the item and a separator. */
  lemma JoinAroundStep(c: string, rest: seq<string>, sep: string, qt: string)
    requires rest != []
    ensures Text.Join(qt, Around([c] + rest, sep)) == qt + c + qt + sep + Text.Join(qt, Around(rest, sep))
  {
    var codes := [c] + rest;
    assert codes[1..] == rest;
    var tail := Around(rest, sep)[1..];
    assert Around(rest, sep) == [[]] + tail;
    JoinCons(qt, [], tail);
    assert Around(codes, sep) == [[]] + ([c] + ([sep] + tail));
    JoinCons(qt, [], [c] + ([sep] + tail));
    JoinCons(qt, c, [sep] + tail);
    JoinCons(qt, sep, tail);
    Regroup(qt, c, sep, Text.Join(qt, tail));
  }

  /** The codes as they stand at the odd places of a split on `'`. */
  function OddPieces(parts: seq<string>): (r: seq<string>)
    ensures |r| == |parts| / 2
  {
    seq(|parts| / 2, i requires 0 <= i < |parts| / 2 => parts[2 * i + 1])
  }

  /**
   * The filter names exactly the codes: for codes free of `'`, splitting
   * the list inside the brackets on `'` gives the codes back, in order.
   */
  lemma QueryRoundTrip(codes: seq<string>)
    requires forall i :: 0 <= i < |codes| ==> '\'' !in codes[i]
    ensures var q := Query(codes);
            OddPieces(Text.Split(q[|QueryHead()|..|q| - 1], '\'')) == codes
  {
    var p := Around(codes, ", ");
    JoinAround(codes, ", ", "'", Text.Quoted(codes));
    forall k | 0 <= k < |p|
      ensures '\'' !in p[k]
    {
      if k % 2 == 1 {
        assert p[2 * (k / 2) + 1] == codes[k / 2];
      } else if 0 < k < 2 * |codes| {
        assert p[2 * (k / 2)] == ", ";
      }
    }
    Text.SplitJoin(p, '\'');
    assert Text.Join("'", p) == Text.Join(['\''], p);
  }

  /** `os.path.basename(INPUT_MOSAIC_RASTER).split('.')[0]`. */
  function Stem(basename: string): string {
    Text.Split(basename, '.')[0]
  }

  /** `f"{input_name}_lsoa_stats.dbf"`. */
  function OutputTableName(basename: string): string {
    Stem(basename) + "_lsoa_stats.dbf"
  }

  /** The stem is the basename up to its first `.`, or all of it when it has none. */
  lemma StemIsBeforeFirstDot(basename: string)
    ensures var stem := Stem(basename);
            Text.StartsWith(basename, stem) && '.' !in stem
            && (|stem| < |basename| ==> basename[|stem|] == '.')
            && ('.' !in basename ==> stem == basename)
  {
    Text.SplitHead(basename, '.');
    if '.' !in basename {
      Text.SplitNoSep(basename, '.');
    }
  }

  /** The table name is the stem followed by the suffix, so rasters of different stems get different tables. */
  lemma OutputTableNameInjective(a: string, b: string)
    requires OutputTableName(a) == OutputTableName(b)
    ensures Stem(a) == Stem(b)
  {
    var sa, sb := Stem(a), Stem(b);
    assert |sa| == |sb|;
    assert sa == OutputTableName(a)[..|sa|];
  }

  /** `" ".join(STATISTICS_TO_CALCULATE)`. */
  function StatsString(stats: seq<string>): string {
    Text.Join(" ", stats)
  }

  /** A non-empty list of statistic names without spaces is recovered from the string. */
  lemma StatsRoundTrip(stats: seq<string>)
    requires |stats| >= 1 && forall i :: 0 <= i < |stats| ==> ' ' !in stats[i]
    ensures Text.Split(StatsString(stats), ' ') == stats
  {
    Text.SplitJoin(stats, ' ');
    assert Text.Join(" ", stats) == Text.Join([' '], stats);
  }

  /** The statistics string of the script is `ALL`. */
  lemma StatisticsIsAll()
    ensures StatsString(Statistics) == "ALL"
  {
  }
}
