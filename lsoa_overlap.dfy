/**
 * The overlap table of the per-tool LSOA statistics: each tool's table has
 * its statistics columns prefixed with the table's position, the tables
 * are outer-joined on the LSOA code, and every LSOA is counted by the
 * number of tables that hold a statistic for it.
 */
module LsoaOverlap {
  import opened FeatureTables
  import Text

  /** The join key, the one column every table shares unprefixed. */
  const Key: string := "LSOA21CD"

  /** `f"F{i}_{col}"`. */
  function Prefixed(i: nat, col: string): string {
    "F" + Text.NatToString(i) + "_" + col
  }

  /** `df.rename(columns={col: f"F{i}_{col}" for col in df.columns if col != "LSOA21CD"})` on the column list. */
  function PrefixColumns(i: nat, columns: seq<string>): (r: seq<string>)
    ensures |r| == |columns|
    ensures forall k :: 0 <= k < |columns| && columns[k] == Key ==> r[k] == Key
    ensures forall k :: 0 <= k < |columns| && columns[k] != Key ==> r[k] == Prefixed(i, columns[k])
  {
    seq(|columns|, k requires 0 <= k < |columns| => if columns[k] == Key then Key else Prefixed(i, columns[k]))
  }

  /** A prefixed name starts with `F`, so it is never the key: the key stays the one shared column. */
  lemma PrefixedIsNotKey(i: nat, col: string)
    ensures Prefixed(i, col) != Key
  {
    assert Prefixed(i, col)[0] == 'F' && Key[0] == 'L';
  }

  /** Where the shorter string has its underscore, the longer one has a digit. */
  lemma ShorterDigits(d: string, e: string, a: string, b: string)
    requires Text.IsDigits(e) && |d| < |e|
    ensures d + "_" + a != e + "_" + b
  {
    assert (d + "_" + a)[|d|] == '_';
    assert (e + "_" + b)[|d|] == e[|d|];
  }

  /** A string of digits followed by an underscore determines both parts. */
  lemma DigitsThenUnderscore(d: string, e: string, a: string, b: string)
    requires Text.IsDigits(d) && Text.IsDigits(e) && d + "_" + a == e + "_" + b
    ensures d == e && a == b
  {
    var s := d + "_" + a;
    if |d| < |e| {
      ShorterDigits(d, e, a, b);
    } else if |e| < |d| {
      ShorterDigits(e, d, b, a);
    } else {
      assert d == s[..|d|] == e;
      assert a == s[|d| + 1..] == b;
    }
  }

  /** Columns of different tables, or different columns of one table, never get the same prefixed name. */
  lemma PrefixedInjective(i: nat, a: string, j: nat, b: string)
    requires Prefixed(i, a) == Prefixed(j, b)
    ensures i == j && a == b
  {
    var d, e := Text.NatToString(i), Text.NatToString(j);
    assert Prefixed(i, a) == "F" + (d + "_" + a);
    assert Prefixed(j, b) == "F" + (e + "_" + b);
    assert d + "_" + a == Prefixed(i, a)[1..];
    DigitsThenUnderscore(d, e, a, b);
    Text.NatToStringInjective(i, j);
  }

  /** The columns other than the key, in order. */
  function NonKey(columns: seq<string>): (r: seq<string>)
    ensures |r| <= |columns|
    ensures forall c :: c in r <==> c in columns && c != Key
    decreases |columns|
  {
    if columns == [] then []
    else
      var n := |columns| - 1;
      NonKey(columns[..n]) + (if columns[n] == Key then [] else [columns[n]])
  }

  /** The number of times a column occurs. */
  function Occurrences(columns: seq<string>, c: string): nat
    decreases |columns|
  {
    if columns == [] then 0
    else
      var n := |columns| - 1;
      Occurrences(columns[..n], c) + (if columns[n] == c then 1 else 0)
  }

  /** Prefixing keeps the key exactly as often as the table had it: it stays the shared join column. */
  lemma {:induction false} PrefixKeepsKey(i: nat, columns: seq<string>)
    ensures Occurrences(PrefixColumns(i, columns), Key) == Occurrences(columns, Key)
    decreases |columns|
  {
    if columns != [] {
      var n := |columns| - 1;
      var r := PrefixColumns(i, columns);
      assert r[..n] == PrefixColumns(i, columns[..n]);
      PrefixKeepsKey(i, columns[..n]);
      if columns[n] != Key {
        PrefixedIsNotKey(i, columns[n]);
      }
    }
  }

  /** A table with the key exactly once has one column fewer besides the key. */
  lemma {:induction false} NonKeyLength(columns: seq<string>)
    ensures |NonKey(columns)| == |columns| - Occurrences(columns, Key)
    decreases |columns|
  {
    if columns != [] {
      NonKeyLength(columns[..|columns| - 1]);
    }
  }

  /**
   * The columns of the outer merge on the key, in order: the first table's
   * columns, then each further table's columns except the key.
   */
  function MergedColumns(tables: seq<seq<string>>): seq<string>
    requires tables != []
    decreases |tables|
  {
    var n := |tables| - 1;
    if n == 0 then tables[0] else MergedColumns(tables[..n]) + NonKey(tables[n])
  }

  /** The statistics columns of all tables, table by table. */
  function AllStats(tables: seq<seq<string>>): seq<string>
    decreases |tables|
  {
    if tables == [] then [] else
      var n := |tables| - 1;
      AllStats(tables[..n]) + NonKey(tables[n])
  }

  lemma {:induction false} NonKeyAppend(a: seq<string>, b: seq<string>)
    ensures NonKey(a + b) == NonKey(a) + NonKey(b)
    decreases |b|
  {
    if b != [] {
      var n := |b| - 1;
      assert (a + b)[..|a| + n] == a + b[..n];
      NonKeyAppend(a, b[..n]);
    } else {
      assert a + b == a;
    }
  }

  lemma {:induction false} NonKeyNonKey(a: seq<string>)
    ensures NonKey(NonKey(a)) == NonKey(a)
    decreases |a|
  {
    if a != [] {
      var n := |a| - 1;
      NonKeyNonKey(a[..n]);
      NonKeyAppend(NonKey(a[..n]), if a[n] == Key then [] else [a[n]]);
    }
  }

  /** `stat_cols`: the merged columns without the key are every table's statistics columns, in table order. */
  lemma {:induction false} StatColsAreAllStats(tables: seq<seq<string>>)
    requires tables != []
    ensures NonKey(MergedColumns(tables)) == AllStats(tables)
    decreases |tables|
  {
    var n := |tables| - 1;
    if n == 0 {
      assert tables[..0] == [];
      assert AllStats(tables) == AllStats([]) + NonKey(tables[0]);
      assert MergedColumns(tables) == tables[0];
    } else {
      var front := tables[..n];
      StatColsAreAllStats(front);
      assert MergedColumns(tables) == MergedColumns(front) + NonKey(tables[n]);
      assert AllStats(tables) == AllStats(front) + NonKey(tables[n]);
      NonKeyAppend(MergedColumns(front), NonKey(tables[n]));
      NonKeyNonKey(tables[n]);
    }
  }

  /** Python's `s[a:b]` for `0 <= a <= b`: the bounds are clamped to the length. */
  function Slice(s: seq<string>, a: nat, b: nat): (r: seq<string>)
    requires a <= b
    ensures |r| <= b - a
  {
    var lo := if a < |s| then a else |s|;
    var hi := if b < |s| then b else |s|;
    s[lo..hi]
  }

  /** Every table has at least one column. */
  predicate HasColumns(tables: seq<seq<string>>) {
    forall t :: 0 <= t < |tables| ==> |tables[t]| >= 1
  }

  /** The sum of `len(df.columns) - 1` over the first `k` tables: where the k-th group starts. */
  function Offset(tables: seq<seq<string>>, k: nat): nat
    requires k <= |tables| && HasColumns(tables)
    decreases k
  {
    if k == 0 then 0 else Offset(tables, k - 1) + (|tables[k - 1]| - 1)
  }

  /** `stat_cols[start:start + num_cols]` for the k-th table. */
  function Group(tables: seq<seq<string>>, statCols: seq<string>, k: nat): seq<string>
    requires k < |tables| && HasColumns(tables)
  {
    Slice(statCols, Offset(tables, k), Offset(tables, k) + (|tables[k]| - 1))
  }

  /**
   * The grouping loop: each table's group is the next `len(columns) - 1`
   * statistics columns, starting where the previous group ended.
   */
  method ColumnGroups(tables: seq<seq<string>>, statCols: seq<string>) returns (groups: seq<seq<string>>)
    requires HasColumns(tables)
    ensures |groups| == |tables|
    ensures forall k :: 0 <= k < |tables| ==> groups[k] == Group(tables, statCols, k)
  {
    groups := [];
    var start: nat := 0;
    for i := 0 to |tables|
      invariant |groups| == i && start == Offset(tables, i)
      invariant forall k :: 0 <= k < i ==> groups[k] == Group(tables, statCols, k)
    {
      var numCols := |tables[i]| - 1;
      var group := Slice(statCols, start, start + numCols);
      assert group == Group(tables, statCols, i);
      groups := groups + [group];
      start := start + numCols;
    }
  }

  /** Each table has the key exactly once, as the merge on it requires. */
  predicate KeyedOnce(tables: seq<seq<string>>) {
    forall t :: 0 <= t < |tables| ==> Occurrences(tables[t], Key) == 1
  }

  lemma OccursOnceNonEmpty(columns: seq<string>)
    requires Occurrences(columns, Key) == 1
    ensures |columns| >= 1
  {
  }

  /** With the key once per table, the first `k` tables' statistics take up exactly the first groups. */
  lemma {:induction false} AllStatsPrefix(tables: seq<seq<string>>, k: nat)
    requires KeyedOnce(tables) && k <= |tables| && HasColumns(tables)
    ensures |AllStats(tables[..k])| == Offset(tables, k)
    decreases k
  {
    if k > 0 {
      assert tables[..k][..k - 1] == tables[..k - 1];
      AllStatsPrefix(tables, k - 1);
      NonKeyLength(tables[k - 1]);
    }
  }

  lemma {:induction false} AllStatsSplit(tables: seq<seq<string>>, k: nat)
    requires k < |tables|
    ensures AllStats(tables) == AllStats(tables[..k]) + NonKey(tables[k]) + AllStats(tables[k + 1..])
    decreases |tables|
  {
    var n := |tables| - 1;
    if k == n {
      assert tables[k + 1..] == [];
      assert tables[..n + 1] == tables;
    } else {
      assert tables[..n][..k] == tables[..k];
      AllStatsSplit(tables[..n], k);
      assert tables[..n][k] == tables[k];
      var rest := tables[k + 1..];
      assert rest[..|rest| - 1] == tables[..n][k + 1..];
      assert rest[|rest| - 1] == tables[n];
    }
  }

  /**
   * On the real `stat_cols`, and with the key once per table, the k-th
   * group is exactly the k-th table's statistics columns.
   */
  lemma GroupsAreTables(tables: seq<seq<string>>, k: nat)
    requires tables != [] && KeyedOnce(tables) && k < |tables|
    ensures HasColumns(tables)
    ensures Group(tables, NonKey(MergedColumns(tables)), k) == NonKey(tables[k])
  {
    KeyedHasColumns(tables);
    StatColsAreAllStats(tables);
    AllStatsSplit(tables, k);
    AllStatsPrefix(tables, k);
    NonKeyLength(tables[k]);
    SliceMiddle(AllStats(tables[..k]), NonKey(tables[k]), AllStats(tables[k + 1..]));
  }

  lemma KeyedHasColumns(tables: seq<seq<string>>)
    requires KeyedOnce(tables)
    ensures HasColumns(tables)
  {
    forall t | 0 <= t < |tables|
      ensures |tables[t]| >= 1
    {
      OccursOnceNonEmpty(tables[t]);
    }
  }

  lemma SliceMiddle(a: seq<string>, n: seq<string>, r: seq<string>)
    ensures Slice(a + n + r, |a|, |a| + |n|) == n
  {
    assert (a + n + r)[|a|..|a| + |n|] == n;
  }

  /** `row[cols].notnull().any()`: some column of the group holds a value in the row. */
  predicate AnyValue(row: map<string, Value>, group: seq<string>) {
    exists c :: c in group && c in row && row[c] != Null
  }

  /** The number of groups with a value in the row. */
  function TablesWithValue(row: map<string, Value>, groups: seq<seq<string>>): nat
    decreases |groups|
  {
    if groups == [] then 0
    else
      var n := |groups| - 1;
      TablesWithValue(row, groups[..n]) + (if AnyValue(row, groups[n]) then 1 else 0)
  }

  /** `count_dbfs`: one count per group that holds a value. */
  method CountDbfs(row: map<string, Value>, groups: seq<seq<string>>) returns (count: nat)
    ensures count == TablesWithValue(row, groups)
  {
    count := 0;
    for g := 0 to |groups|
      invariant count == TablesWithValue(row, groups[..g])
    {
      assert groups[..g + 1][..g] == groups[..g];
      var group := groups[g];
      var notNull := false;
      for c := 0 to |group|
        invariant notNull <==> exists k :: 0 <= k < c && group[k] in row && row[group[k]] != Null
      {
        if group[c] in row && row[group[c]] != Null {
          notNull := true;
        }
      }
      assert notNull <==> AnyValue(row, group) by {
        if AnyValue(row, group) {
          var col :| col in group && col in row && row[col] != Null;
          var k :| 0 <= k < |group| && group[k] == col;
        }
      }
      if notNull {
        count := count + 1;
      }
    }
    assert groups[..|groups|] == groups;
  }

  /** `DBF_count` lies between 0 and the number of tables, and is 0 for a row with no statistic at all. */
  lemma {:induction false} CountBounds(row: map<string, Value>, groups: seq<seq<string>>)
    ensures TablesWithValue(row, groups) <= |groups|
    ensures (forall c :: c in row ==> row[c] == Null) ==> TablesWithValue(row, groups) == 0
    decreases |groups|
  {
    if groups != [] {
      CountBounds(row, groups[..|groups| - 1]);
    }
  }

  /** A row with a value in every group is counted in every table. */
  lemma {:induction false} CountAll(row: map<string, Value>, groups: seq<seq<string>>)
    requires forall g :: 0 <= g < |groups| ==> AnyValue(row, groups[g])
    ensures TablesWithValue(row, groups) == |groups|
    decreases |groups|
  {
    if groups != [] {
      var n := |groups| - 1;
      assert forall g :: 0 <= g < n ==> groups[..n][g] == groups[g];
      CountAll(row, groups[..n]);
    }
  }
}
