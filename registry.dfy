/**
 * The address registry the raster tools share: files found under a data
 * root are keyed by the name of the folder above their own folder, the
 * geocode table gives each address its coordinate, and ICP-registered
 * point clouds are preferred to centre-aligned ones.
 */
module Registry {
  import opened Wrappers
  import Text
  import Dicts

  // ---------------------------------------------------------------- finding files

  /** One step of `os.walk`: a folder, as its path components, and its file names. */
  datatype WalkEntry = WalkEntry(dir: seq<string>, files: seq<string>)

  /** `Path(root).parent.name`; a path of one component has an empty parent name. */
  function ParentName(dir: seq<string>): (name: string)
    ensures |dir| >= 2 ==> name == dir[|dir| - 2]
    ensures |dir| < 2 ==> name == ""
  {
    if |dir| >= 2 then dir[|dir| - 2] else ""
  }

  /** `os.path.join(root, file)` with the Windows separator. */
  function FilePath(dir: seq<string>, file: string): string {
    Text.Join("\\", dir + [file])
  }

  /** `file.lower().endswith(pattern)`. */
  predicate EndsWithPattern(pattern: string, file: string) {
    Text.EndsWith(Text.Lower(file), pattern)
  }

  /** `fnmatch` for the `*` and `?` wildcards; every other character is literal. */
  predicate FnMatch(s: string, p: string)
    decreases |s| + |p|
  {
    if |p| == 0 then |s| == 0
    else if p[0] == '*' then FnMatch(s, p[1..]) || (|s| > 0 && FnMatch(s[1..], p))
    else |s| > 0 && (p[0] == '?' || s[0] == p[0]) && FnMatch(s[1..], p[1..])
  }

  /** `fnmatch.fnmatch(file.lower(), pattern.lower())`. */
  predicate GlobPattern(pattern: string, file: string) {
    FnMatch(Text.Lower(file), Text.Lower(pattern))
  }

  predicate Literal(p: string) {
    forall k :: 0 <= k < |p| ==> p[k] != '*' && p[k] != '?'
  }

  /** A pattern without wildcards matches only itself. */
  lemma {:induction false} FnMatchLiteral(s: string, p: string)
    requires Literal(p)
    ensures FnMatch(s, p) <==> s == p
    decreases |p|
  {
    if |p| > 0 && |s| > 0 {
      assert Literal(p[1..]);
      FnMatchLiteral(s[1..], p[1..]);
      if s[0] == p[0] && s[1..] == p[1..] {
        assert s == [s[0]] + s[1..] && p == [p[0]] + p[1..];
      }
    }
  }

  /** `*` followed by a literal suffix matches exactly the names ending with it. */
  lemma {:induction false} FnMatchStarSuffix(s: string, suffix: string)
    requires Literal(suffix)
    ensures FnMatch(s, "*" + suffix) <==> Text.EndsWith(s, suffix)
    decreases |s|
  {
    assert ("*" + suffix)[1..] == suffix;
    FnMatchLiteral(s, suffix);
    if |s| > 0 {
      FnMatchStarSuffix(s[1..], suffix);
      if |s| > |suffix| {
        assert s[1..][|s| - 1 - |suffix|..] == s[|s| - |suffix|..];
      } else if |s| == |suffix| {
        assert Text.EndsWith(s, suffix) <==> s == suffix;
        assert !Text.EndsWith(s[1..], suffix);
      }
    }
  }

  /** The assignments `file_map[uprn] = path` of one walk, in walk order. */
  function Candidates(walk: seq<WalkEntry>, matches: string -> bool, geocoded: set<string>): (ps: seq<(string, string)>)
    ensures forall i :: 0 <= i < |ps| ==> ps[i].0 in geocoded
    decreases |walk|
  {
    if walk == [] then []
    else
      var last := walk[|walk| - 1];
      Candidates(walk[..|walk| - 1], matches, geocoded) + DirCandidates(last.dir, last.files, matches, geocoded)
  }

  /** The assignments made for the files of one folder. */
  function DirCandidates(dir: seq<string>, files: seq<string>, matches: string -> bool, geocoded: set<string>): (ps: seq<(string, string)>)
    ensures forall i :: 0 <= i < |ps| ==> ps[i].0 == ParentName(dir) && ps[i].0 in geocoded
    decreases |files|
  {
    if files == [] then []
    else
      var n := |files| - 1;
      var front := DirCandidates(dir, files[..n], matches, geocoded);
      if matches(files[n]) && ParentName(dir) in geocoded then front + [(ParentName(dir), FilePath(dir, files[n]))]
      else front
  }

  /** A folder makes an assignment exactly when its address is geocoded and it holds a matching file. */
  lemma {:induction false} DirCandidatesKeys(dir: seq<string>, files: seq<string>, matches: string -> bool, geocoded: set<string>)
    ensures |DirCandidates(dir, files, matches, geocoded)| > 0
            <==> ParentName(dir) in geocoded && exists j :: 0 <= j < |files| && matches(files[j])
    decreases |files|
  {
    if files != [] {
      var n := |files| - 1;
      DirCandidatesKeys(dir, files[..n], matches, geocoded);
      assert forall j :: 0 <= j < n ==> files[..n][j] == files[j];
      if ParentName(dir) in geocoded && (exists j :: 0 <= j < |files| && matches(files[j])) && !matches(files[n]) {
        var j :| 0 <= j < |files| && matches(files[j]);
        assert files[..n][j] == files[j];
      }
    }
  }

  /** Every assignment of a folder stores the path of one of its matching files. */
  lemma {:induction false} DirCandidatesPath(dir: seq<string>, files: seq<string>, matches: string -> bool, geocoded: set<string>, i: nat)
    requires i < |DirCandidates(dir, files, matches, geocoded)|
    ensures exists j :: 0 <= j < |files| && matches(files[j])
                        && DirCandidates(dir, files, matches, geocoded)[i].1 == FilePath(dir, files[j])
    decreases |files|
  {
    var n := |files| - 1;
    var ps := DirCandidates(dir, files, matches, geocoded);
    var pf := DirCandidates(dir, files[..n], matches, geocoded);
    if i < |pf| {
      assert ps[i] == pf[i];
      DirCandidatesPath(dir, files[..n], matches, geocoded, i);
      var j :| 0 <= j < |files[..n]| && matches(files[..n][j]) && pf[i].1 == FilePath(dir, files[..n][j]);
      assert files[..n][j] == files[j];
    } else {
      assert matches(files[n]) && ps[i].1 == FilePath(dir, files[n]);
    }
  }

  /** A key is present exactly when a geocoded folder two levels up holds a matching file. */
  lemma CandidatesKeys(walk: seq<WalkEntry>, matches: string -> bool, geocoded: set<string>, k: string)
    ensures (exists i :: 0 <= i < |Candidates(walk, matches, geocoded)| && Candidates(walk, matches, geocoded)[i].0 == k)
            <==> k in geocoded && exists d, j :: 0 <= d < |walk| && 0 <= j < |walk[d].files|
                                                && ParentName(walk[d].dir) == k && matches(walk[d].files[j])
  {
    if exists i :: 0 <= i < |Candidates(walk, matches, geocoded)| && Candidates(walk, matches, geocoded)[i].0 == k {
      var i :| 0 <= i < |Candidates(walk, matches, geocoded)| && Candidates(walk, matches, geocoded)[i].0 == k;
      CandidatesPath(walk, matches, geocoded, i);
    }
    if k in geocoded && exists d, j :: 0 <= d < |walk| && 0 <= j < |walk[d].files|
                                      && ParentName(walk[d].dir) == k && matches(walk[d].files[j]) {
      var d, j :| 0 <= d < |walk| && 0 <= j < |walk[d].files| && ParentName(walk[d].dir) == k && matches(walk[d].files[j]);
      CandidatesComplete(walk, matches, geocoded, d, j);
    }
  }

  /** A matching file in a folder of a geocoded address makes an assignment to that address. */
  lemma {:induction false} CandidatesComplete(walk: seq<WalkEntry>, matches: string -> bool, geocoded: set<string>, d: nat, j: nat)
    requires d < |walk| && j < |walk[d].files| && ParentName(walk[d].dir) in geocoded && matches(walk[d].files[j])
    ensures exists i :: 0 <= i < |Candidates(walk, matches, geocoded)| && Candidates(walk, matches, geocoded)[i].0 == ParentName(walk[d].dir)
    decreases |walk|
  {
    var n := |walk| - 1;
    var front := walk[..n];
    var ps := Candidates(walk, matches, geocoded);
    var pf := Candidates(front, matches, geocoded);
    var pl := DirCandidates(walk[n].dir, walk[n].files, matches, geocoded);
    assert ps == pf + pl;
    if d < n {
      assert front[d] == walk[d];
      CandidatesComplete(front, matches, geocoded, d, j);
      var i :| 0 <= i < |pf| && pf[i].0 == ParentName(walk[d].dir);
      assert ps[i] == pf[i];
    } else {
      DirCandidatesKeys(walk[n].dir, walk[n].files, matches, geocoded);
      assert ps[|pf|] == pl[0];
    }
  }

  /** One more folder of the walk appends its assignments. */
  lemma CandidatesSnoc(walk: seq<WalkEntry>, matches: string -> bool, geocoded: set<string>, d: nat)
    requires d < |walk|
    ensures Candidates(walk[..d + 1], matches, geocoded)
            == Candidates(walk[..d], matches, geocoded) + DirCandidates(walk[d].dir, walk[d].files, matches, geocoded)
  {
    assert walk[..d + 1][..d] == walk[..d];
  }

  /** One more file of a folder appends its assignment when it matches and the address is geocoded. */
  lemma DirCandidatesSnoc(dir: seq<string>, files: seq<string>, matches: string -> bool, geocoded: set<string>, j: nat)
    requires j < |files|
    ensures DirCandidates(dir, files[..j + 1], matches, geocoded)
            == DirCandidates(dir, files[..j], matches, geocoded)
               + (if matches(files[j]) && ParentName(dir) in geocoded then [(ParentName(dir), FilePath(dir, files[j]))] else [])
  {
    assert files[..j + 1][..j] == files[..j];
  }

  /** Every assignment of a walk stores, under an address, a matching file of a folder two levels below it. */
  lemma {:induction false} CandidatesPath(walk: seq<WalkEntry>, matches: string -> bool, geocoded: set<string>, i: nat)
    requires i < |Candidates(walk, matches, geocoded)|
    ensures exists d, j :: 0 <= d < |walk| && 0 <= j < |walk[d].files|
                           && ParentName(walk[d].dir) == Candidates(walk, matches, geocoded)[i].0
                           && matches(walk[d].files[j])
                           && Candidates(walk, matches, geocoded)[i].1 == FilePath(walk[d].dir, walk[d].files[j])
    decreases |walk|
  {
    var n := |walk| - 1;
    var front := walk[..n];
    var ps := Candidates(walk, matches, geocoded);
    var pf := Candidates(front, matches, geocoded);
    var pl := DirCandidates(walk[n].dir, walk[n].files, matches, geocoded);
    assert ps == pf + pl;
    if i < |pf| {
      assert pf[i] == ps[i];
      CandidatesPath(front, matches, geocoded, i);
      var d, j :| 0 <= d < |front| && 0 <= j < |front[d].files| && ParentName(front[d].dir) == pf[i].0
                  && matches(front[d].files[j]) && pf[i].1 == FilePath(front[d].dir, front[d].files[j]);
      assert front[d] == walk[d];
    } else {
      assert pl[i - |pf|] == ps[i];
      DirCandidatesPath(walk[n].dir, walk[n].files, matches, geocoded, i - |pf|);
      var j :| 0 <= j < |walk[n].files| && matches(walk[n].files[j]) && pl[i - |pf|].1 == FilePath(walk[n].dir, walk[n].files[j]);
      assert ParentName(walk[n].dir) == ps[i].0;
    }
  }

  /** Every entry of the file map is the path of a matching file in a folder of that address. */
  lemma FileMapPaths(walk: seq<WalkEntry>, matches: string -> bool, geocoded: set<string>, k: string)
    requires k in Dicts.Assoc(Candidates(walk, matches, geocoded))
    ensures exists d, j :: 0 <= d < |walk| && 0 <= j < |walk[d].files| && ParentName(walk[d].dir) == k
                           && matches(walk[d].files[j])
                           && Dicts.Assoc(Candidates(walk, matches, geocoded))[k] == FilePath(walk[d].dir, walk[d].files[j])
  {
    var ps := Candidates(walk, matches, geocoded);
    Dicts.AssocValue(ps, k);
    var i :| 0 <= i < |ps| && ps[i] == (k, Dicts.Assoc(ps)[k]);
    CandidatesPath(walk, matches, geocoded, i);
  }

  /**
   * `find_files_by_uprn` / `find_pcd_files`: the walk's matching files of
   * geocoded addresses, keyed by address; a later file overwrites an earlier one.
   */
  method FindFiles(walk: seq<WalkEntry>, matches: string -> bool, geocoded: set<string>) returns (fileMap: map<string, string>)
    ensures fileMap == Dicts.Assoc(Candidates(walk, matches, geocoded))
    ensures fileMap.Keys <= geocoded
  {
    fileMap := map[];
    for d := 0 to |walk|
      invariant fileMap == Dicts.Assoc(Candidates(walk[..d], matches, geocoded))
    {
      CandidatesSnoc(walk, matches, geocoded, d);
      fileMap := ScanFolder(fileMap, Candidates(walk[..d], matches, geocoded), walk[d], matches, geocoded);
    }
    assert walk[..|walk|] == walk;
  }

  /** One file of the inner loop: a matching file of a geocoded address is assigned, any other changes nothing. */
  lemma ScanStep(before: seq<(string, string)>, e: WalkEntry, matches: string -> bool, geocoded: set<string>, j: nat)
    requires j < |e.files|
    ensures var done := Dicts.Assoc(before + DirCandidates(e.dir, e.files[..j], matches, geocoded));
            Dicts.Assoc(before + DirCandidates(e.dir, e.files[..j + 1], matches, geocoded))
            == if matches(e.files[j]) && ParentName(e.dir) in geocoded
               then done[ParentName(e.dir) := FilePath(e.dir, e.files[j])]
               else done
  {
    var front := before + DirCandidates(e.dir, e.files[..j], matches, geocoded);
    DirCandidatesSnoc(e.dir, e.files, matches, geocoded, j);
    if matches(e.files[j]) && ParentName(e.dir) in geocoded {
      var p := (ParentName(e.dir), FilePath(e.dir, e.files[j]));
      assert before + DirCandidates(e.dir, e.files[..j + 1], matches, geocoded) == front + [p];
      Dicts.AssocSnoc(front, p);
    } else {
      assert before + DirCandidates(e.dir, e.files[..j + 1], matches, geocoded) == front;
    }
  }

  /** The inner loop over one folder's files, on the map built so far from the earlier candidates. */
  method ScanFolder(fileMap: map<string, string>, ghost before: seq<(string, string)>, e: WalkEntry,
                    matches: string -> bool, geocoded: set<string>) returns (m: map<string, string>)
    requires fileMap == Dicts.Assoc(before)
    ensures m == Dicts.Assoc(before + DirCandidates(e.dir, e.files, matches, geocoded))
  {
    m := fileMap;
    assert e.files[..0] == [];
    assert before + DirCandidates(e.dir, e.files[..0], matches, geocoded) == before;
    for j := 0 to |e.files|
      invariant m == Dicts.Assoc(before + DirCandidates(e.dir, e.files[..j], matches, geocoded))
    {
      var file := e.files[j];
      var uprn := ParentName(e.dir);
      ScanStep(before, e, matches, geocoded, j);
      if matches(file) && uprn in geocoded {
        m := m[uprn := FilePath(e.dir, file)];
      }
    }
    assert e.files[..|e.files|] == e.files;
  }

  // ---------------------------------------------------------------- geocodes

  /** The UPRN cell as the cursor delivers it: text, a number, or NULL. */
  datatype RawId = IdText(text: string) | IdNumber(number: int) | IdNull

  /** `str(uprn)`; NULL renders as `None`. */
  function IdString(id: RawId): string {
    match id
    case IdText(t) => t
    case IdNumber(n) => Text.IntToString(n)
    case IdNull => "None"
  }

  datatype GeocodeRow = GeocodeRow(uprn: RawId, x: Option<real>, y: Option<real>)

  /** The key of a row: `str(uprn).strip()`. */
  function RowKey(row: GeocodeRow): string {
    Text.Strip(IdString(row.uprn))
  }

  /** `if uprn_str and x is not None and y is not None`, for the row's key. */
  predicate Accepted(key: string, row: GeocodeRow) {
    key != "" && row.x.Some? && row.y.Some?
  }

  /**
   * The accepted rows as the `coords[uprn_str] = (x, y)` assignments they
   * make, for a given way of keying rows.
   */
  function Accepts(rows: seq<GeocodeRow>, key: GeocodeRow -> string): (ps: seq<(string, (real, real))>)
    ensures forall i :: 0 <= i < |ps| ==> ps[i].0 != ""
    decreases |rows|
  {
    if rows == [] then []
    else
      var n := |rows| - 1;
      var row := rows[n];
      Accepts(rows[..n], key) + (if Accepted(key(row), row) then [(key(row), (row.x.value, row.y.value))] else [])
  }

  /** A key is assigned exactly when some accepted row carries it. */
  lemma {:induction false} AcceptsKeys(rows: seq<GeocodeRow>, key: GeocodeRow -> string, k: string)
    ensures (exists i :: 0 <= i < |Accepts(rows, key)| && Accepts(rows, key)[i].0 == k)
            <==> exists i :: 0 <= i < |rows| && Accepted(key(rows[i]), rows[i]) && key(rows[i]) == k
    decreases |rows|
  {
    if rows != [] {
      var n := |rows| - 1;
      AcceptsKeys(rows[..n], key, k);
      var ps := Accepts(rows, key);
      var pf := Accepts(rows[..n], key);
      assert forall i :: 0 <= i < |pf| ==> ps[i] == pf[i];
      assert forall i :: 0 <= i < n ==> rows[..n][i] == rows[i];
      if Accepted(key(rows[n]), rows[n]) && key(rows[n]) == k {
        assert ps[|pf|].0 == k;
      }
    }
  }

  /** The coordinate dict has the accepted keys, each with its last accepted row's x and y. */
  lemma GeocodeDict(rows: seq<GeocodeRow>, key: GeocodeRow -> string, i: nat)
    requires i < |rows| && Accepted(key(rows[i]), rows[i])
    requires forall j :: i < j < |rows| ==> !(Accepted(key(rows[j]), rows[j]) && key(rows[j]) == key(rows[i]))
    ensures key(rows[i]) in Dicts.Assoc(Accepts(rows, key))
    ensures Dicts.Assoc(Accepts(rows, key))[key(rows[i])] == (rows[i].x.value, rows[i].y.value)
  {
    AcceptsPosition(rows, key, i);
    var ps := Accepts(rows, key);
    var j :| LastAt(ps, j, key(rows[i]), (rows[i].x.value, rows[i].y.value));
    Dicts.AssocLastWins(ps, j);
  }

  /** Position `j` holds the assignment `(k, v)` and no later one assigns `k`. */
  predicate LastAt(ps: seq<(string, (real, real))>, j: int, k: string, v: (real, real)) {
    0 <= j < |ps| && ps[j] == (k, v) && forall m :: j < m < |ps| ==> ps[m].0 != k
  }

  /**
   * The assignment of an accepted row is followed only by assignments of
   * later accepted rows.
   */
  lemma {:induction false} AcceptsPosition(rows: seq<GeocodeRow>, key: GeocodeRow -> string, i: nat)
    requires i < |rows| && Accepted(key(rows[i]), rows[i])
    requires forall j :: i < j < |rows| ==> !(Accepted(key(rows[j]), rows[j]) && key(rows[j]) == key(rows[i]))
    ensures exists j :: LastAt(Accepts(rows, key), j, key(rows[i]), (rows[i].x.value, rows[i].y.value))
    decreases |rows|
  {
    var n := |rows| - 1;
    var ps := Accepts(rows, key);
    var pf := Accepts(rows[..n], key);
    var v := (rows[i].x.value, rows[i].y.value);
    if i == n {
      assert ps == pf + [(key(rows[i]), v)];
      assert LastAt(ps, |pf|, key(rows[i]), v);
    } else {
      assert rows[..n][i] == rows[i];
      assert forall j :: i < j < n ==> rows[..n][j] == rows[j];
      AcceptsPosition(rows[..n], key, i);
      var j :| LastAt(pf, j, key(rows[i]), v);
      assert forall m :: 0 <= m < |pf| ==> ps[m] == pf[m];
      forall m | j < m < |ps|
        ensures ps[m].0 != key(rows[i])
      {
        if m >= |pf| {
          assert Accepted(key(rows[n]), rows[n]) && ps[m].0 == key(rows[n]);
        }
      }
      assert LastAt(ps, j, key(rows[i]), v);
    }
  }

  /** A NULL UPRN with both coordinates is accepted under the key `None`. */
  lemma NullIdAccepted(x: real, y: real)
    ensures Accepted(RowKey(GeocodeRow(IdNull, Some(x), Some(y))), GeocodeRow(IdNull, Some(x), Some(y)))
    ensures RowKey(GeocodeRow(IdNull, Some(x), Some(y))) == "None"
  {
    var s := "None";
    assert !Text.IsSpace(s[0]) && !Text.IsSpace(s[3]);
    assert Text.StripLeft(s) == s;
    assert Text.StripRight(s) == s;
  }

  /**
   * `load_geocodes_with_arcpy`: every row is counted, the accepted ones fill
   * the coordinate dict (last wins), and the id set is its key set.
   */
  method LoadGeocodes(rows: seq<GeocodeRow>) returns (coords: map<string, (real, real)>, ids: set<string>, totalRows: nat)
    ensures coords == Dicts.Assoc(Accepts(rows, RowKey))
    ensures ids == coords.Keys
    ensures totalRows == |rows|
  {
    coords, ids, totalRows := map[], {}, 0;
    for i := 0 to |rows|
      invariant coords == Dicts.Assoc(Accepts(rows[..i], RowKey))
      invariant ids == coords.Keys
      invariant totalRows == i
    {
      totalRows := totalRows + 1;
      var row := rows[i];
      var uprnStr := RowKey(row);
      ghost var before := Accepts(rows[..i], RowKey);
      AcceptsSnoc(rows, RowKey, i);
      if uprnStr != "" && row.x.Some? && row.y.Some? {
        assert Accepted(RowKey(rows[i]), rows[i]);
        assert Accepts(rows[..i + 1], RowKey) == before + [(uprnStr, (row.x.value, row.y.value))];
        Dicts.AssocSnoc(before, (uprnStr, (row.x.value, row.y.value)));
        Dicts.KeysUpdate(coords, uprnStr, (row.x.value, row.y.value));
        coords := coords[uprnStr := (row.x.value, row.y.value)];
        ids := ids + {uprnStr};
      } else {
        assert !Accepted(RowKey(rows[i]), rows[i]);
        assert Accepts(rows[..i + 1], RowKey) == before + [];
        assert before + [] == before;
      }
    }
    assert rows[..|rows|] == rows;
  }

  /** Scanning one more row adds its assignment, if it is accepted. */
  lemma AcceptsSnoc(rows: seq<GeocodeRow>, key: GeocodeRow -> string, i: nat)
    requires i < |rows|
    ensures Accepts(rows[..i + 1], key)
            == Accepts(rows[..i], key)
               + (if Accepted(key(rows[i]), rows[i]) then [(key(rows[i]), (rows[i].x.value, rows[i].y.value))] else [])
  {
    assert rows[..i + 1][..i] == rows[..i];
  }

  // ---------------------------------------------------------------- merging

  /** ICP files first; a centre file only where there is no ICP file. */
  function Merged(icp: map<string, string>, centre: map<string, string>): (m: map<string, string>)
    ensures m.Keys == icp.Keys + centre.Keys
    ensures forall k :: k in icp ==> m[k] == icp[k]
    ensures forall k :: k in centre && k !in icp ==> m[k] == centre[k]
  {
    map k | k in icp.Keys + centre.Keys :: if k in icp then icp[k] else centre[k]
  }

  /** `for uprn, path in centre_files.items(): if uprn not in pcd_files: pcd_files[uprn] = path`. */
  method MergePreferIcp(icp: map<string, string>, centre: map<string, string>) returns (pcdFiles: map<string, string>)
    ensures pcdFiles == Merged(icp, centre)
  {
    pcdFiles := icp;
    var pending := centre.Keys;
    while pending != {}
      invariant pending <= centre.Keys
      invariant pcdFiles.Keys == icp.Keys + (centre.Keys - pending)
      invariant forall k :: k in pcdFiles ==> pcdFiles[k] == Merged(icp, centre)[k]
      decreases pending
    {
      var uprn :| uprn in pending;
      if uprn !in pcdFiles {
        pcdFiles := pcdFiles[uprn := centre[uprn]];
      }
      pending := pending - {uprn};
    }
  }

  /** When both maps only hold geocoded addresses, so does the merge. */
  lemma MergedGeocoded(icp: map<string, string>, centre: map<string, string>, geocoded: set<string>)
    requires icp.Keys <= geocoded && centre.Keys <= geocoded
    ensures Merged(icp, centre).Keys <= geocoded
  {
  }

  /** The addresses found in every one of the file maps. */
  function Matched(maps: seq<map<string, string>>): (keys: set<string>)
    requires |maps| > 0
    ensures forall k :: k in keys <==> forall i :: 0 <= i < |maps| ==> k in maps[i]
    decreases |maps|
  {
    if |maps| == 1 then maps[0].Keys
    else Matched(maps[..|maps| - 1]) * maps[|maps| - 1].Keys
  }

  /** An address processed from matched file maps has a geocode. */
  lemma MatchedGeocoded(maps: seq<map<string, string>>, geocoded: set<string>)
    requires |maps| > 0 && maps[0].Keys <= geocoded
    ensures Matched(maps) <= geocoded
  {
  }
}
