/**
 * The data audit: every address folder under the data root is indexed by
 * the file names below it, and each address of the master list is marked,
 * tool by tool, as having the data the tool needs. A tool needs any one
 * of its requirement groups (OR); a group needs every one of its
 * substrings to occur in some file name (AND).
 */
module ToolAudit {
  import opened Wrappers
  import Text

  /** `dirname.isdigit() and len(dirname) > 6`. */
  predicate IsUprnFolder(name: string) {
    Text.IsDigits(name) && |name| > 6
  }

  /** A folder met by the directory walk, with the names of all files in its subtree. */
  datatype Folder = Folder(name: string, files: seq<string>)

  /** The names in a list of files. */
  function FileSet(files: seq<string>): (r: set<string>)
    ensures forall f :: f in r <==> f in files
    decreases |files|
  {
    if files == [] then {} else FileSet(files[..|files| - 1]) + {files[|files| - 1]}
  }

  /** The file-name index the walk builds: address folders only, repeated names merged. */
  function IndexOf(folders: seq<Folder>): map<string, set<string>>
    decreases |folders|
  {
    if folders == [] then map[]
    else
      var n := |folders| - 1;
      var m := IndexOf(folders[..n]);
      var d := folders[n];
      if IsUprnFolder(d.name) then
        m[d.name := (if d.name in m then m[d.name] else {}) + FileSet(d.files)]
      else m
  }

  /**
   * An address is indexed exactly when some folder carries its name, and
   * its file set is the union of the files of all folders with that name.
   */
  lemma {:induction false} IndexOfFacts(folders: seq<Folder>, u: string, f: string)
    ensures u in IndexOf(folders) <==> IsUprnFolder(u) && exists i :: 0 <= i < |folders| && folders[i].name == u
    ensures u in IndexOf(folders) ==>
              (f in IndexOf(folders)[u] <==> exists i :: 0 <= i < |folders| && folders[i].name == u && f in folders[i].files)
    decreases |folders|
  {
    if folders != [] {
      var n := |folders| - 1;
      var front := folders[..n];
      IndexOfFacts(front, u, f);
      assert forall i :: 0 <= i < n ==> front[i] == folders[i];
      if (exists i :: 0 <= i < |folders| && folders[i].name == u) && folders[n].name != u {
        var i :| 0 <= i < |folders| && folders[i].name == u;
        assert front[i] == folders[i];
      }
      if u in IndexOf(folders) && f in IndexOf(folders)[u] && folders[n].name == u && f !in folders[n].files {
        assert u in IndexOf(front);
      }
    }
  }

  /** The nested walks of step 1, filling `uprn_file_map`. */
  method BuildIndex(folders: seq<Folder>) returns (index: map<string, set<string>>)
    ensures index == IndexOf(folders)
  {
    index := map[];
    for i := 0 to |folders|
      invariant index == IndexOf(folders[..i])
    {
      assert folders[..i + 1][..i] == folders[..i];
      var d := folders[i];
      if IsUprnFolder(d.name) {
        var uprn := d.name;
        // `uprn_file_map[uprn]` is one set object, grown in place by `.add`.
        var names: set<string> := if uprn in index then index[uprn] else {};
        names := AddFiles(names, d.files);
        index := index[uprn := names];
      }
    }
    assert folders[..|folders|] == folders;
  }

  /** The inner walk of one address folder: every file name below it joins the address's set. */
  method AddFiles(names: set<string>, files: seq<string>) returns (r: set<string>)
    ensures r == names + FileSet(files)
  {
    r := names;
    for j := 0 to |files|
      invariant r == names + FileSet(files[..j])
    {
      assert files[..j + 1][..j] == files[..j];
      r := r + {files[j]};
    }
    assert files[..|files|] == files;
  }

  /** One tool: its requirement groups, any one of which is enough. */
  datatype Tool = Tool(name: string, groups: seq<seq<string>>)

  /** `TOOL_REQUIREMENTS`, in dict order. */
  const Requirements: seq<Tool> := [
    Tool("Vegetation_Structure", [["icp_pcd"], ["centre_pcd"]]),
    Tool("NDVI", [["rgb", "nir", "range"]]),
    Tool("Temperature_Anomalies", [["ir_temp", "range"]]),
    Tool("Reflectance_Anomalies", [["reflec", "range"]]),
    Tool("Solar_Radiance", [["icp_pcd"], ["centre_pcd"]])
  ]

  /** `all(any(req in f for f in available_files) for req in group)`. */
  predicate GroupSatisfied(group: seq<string>, files: set<string>) {
    forall k :: 0 <= k < |group| ==> exists f :: f in files && Text.IsSubstring(group[k], f)
  }

  /** Some requirement group of the tool is satisfied. */
  predicate ToolAvailable(tool: Tool, files: set<string>) {
    exists g :: 0 <= g < |tool.groups| && GroupSatisfied(tool.groups[g], files)
  }

  /** An empty group asks for nothing, so it is satisfied even by an empty file set. */
  lemma EmptyGroupSatisfied(files: set<string>)
    ensures GroupSatisfied([], files)
  {
  }

  /** The OR loop over the groups with its early `break`: the flag is the existential. */
  method ToolSuccess(tool: Tool, files: set<string>) returns (success: bool)
    ensures success <==> ToolAvailable(tool, files)
  {
    success := false;
    for g := 0 to |tool.groups|
      invariant !success
      invariant forall h :: 0 <= h < g ==> !GroupSatisfied(tool.groups[h], files)
    {
      if GroupSatisfied(tool.groups[g], files) {
        success := true;
        break;
      }
    }
  }

  /** The flag of one tool for one address: 1 when the address has a folder and the tool's data. */
  function Flag(index: map<string, set<string>>, uprn: string, tool: Tool): (flag: int)
    ensures flag == 0 || flag == 1
    ensures flag == 1 <==> uprn in index && ToolAvailable(tool, index[uprn])
  {
    if uprn in index && ToolAvailable(tool, index[uprn]) then 1 else 0
  }

  /** `df[tool_columns].sum(axis=1)` for one row. */
  function RowSum(flags: seq<int>): int
    decreases |flags|
  {
    if flags == [] then 0 else RowSum(flags[..|flags| - 1]) + flags[|flags| - 1]
  }

  /** A sum of 0/1 flags lies between 0 and the number of flags. */
  lemma {:induction false} RowSumBounds(flags: seq<int>)
    requires forall t :: 0 <= t < |flags| ==> flags[t] == 0 || flags[t] == 1
    ensures 0 <= RowSum(flags) <= |flags|
    decreases |flags|
  {
    if flags != [] {
      var n := |flags| - 1;
      assert forall t :: 0 <= t < n ==> flags[..n][t] == flags[t];
      RowSumBounds(flags[..n]);
    }
  }

  /** Step 1's failure, step 2's failure, or the report's flag and count columns. */
  datatype AuditOutcome =
    | NoUprnFolders
    | AddressFileUnreadable(message: string)
    | Report(flags: seq<seq<int>>, counts: seq<int>)

  /** The rows of the flag table. */
  function TableRows(table: array2<int>): (rows: seq<seq<int>>)
    reads table
    ensures |rows| == table.Length0
    ensures forall i, t :: 0 <= i < table.Length0 && 0 <= t < table.Length1 ==> |rows[i]| == table.Length1 && rows[i][t] == table[i, t]
  {
    seq(table.Length0, i requires 0 <= i < table.Length0 reads table =>
      seq(table.Length1, t requires 0 <= t < table.Length1 reads table => table[i, t]))
  }

  /**
   * Steps 1 to 4 of `final_audit`: stop on an empty index before the
   * address list is read; otherwise set every flag to 0, raise the flags of
   * the tools whose data each indexed address has, and sum each row.
   */
  method FinalAudit(folders: seq<Folder>, addresses: Result<seq<string>, string>, tools: seq<Tool>)
    returns (outcome: AuditOutcome)
    ensures IndexOf(folders) == map[] <==> outcome == NoUprnFolders
    ensures IndexOf(folders) != map[] && addresses.Err? ==> outcome == AddressFileUnreadable(addresses.error)
    ensures IndexOf(folders) != map[] && addresses.Ok? ==> outcome.Report?
    ensures outcome.Report? ==>
              addresses.Ok? && |outcome.flags| == |outcome.counts| == |addresses.value|
              && forall i :: 0 <= i < |addresses.value| ==>
                   |outcome.flags[i]| == |tools|
                   && (forall t :: 0 <= t < |tools| ==> outcome.flags[i][t] == Flag(IndexOf(folders), addresses.value[i], tools[t]))
                   && outcome.counts[i] == RowSum(outcome.flags[i])
  {
    var index := BuildIndex(folders);
    if index == map[] {
      return NoUprnFolders;
    }
    if addresses.Err? {
      return AddressFileUnreadable(addresses.error);
    }
    var rows := addresses.value;
    var table := new int[|rows|, |tools|]((i: nat, t: nat) => 0);
    for i := 0 to |rows|
      invariant forall r, t :: 0 <= r < i && 0 <= t < |tools| ==> table[r, t] == Flag(index, rows[r], tools[t])
      invariant forall r, t :: i <= r < |rows| && 0 <= t < |tools| ==> table[r, t] == 0
    {
      FlagRow(table, i, rows[i], index, tools);
    }
    var flags := TableRows(table);
    var counts := seq(|rows|, i requires 0 <= i < |rows| => RowSum(flags[i]));
    outcome := Report(flags, counts);
  }

  /** The audit of one address: its row of flags, raised for the tools whose data it has; other rows are untouched. */
  method FlagRow(table: array2<int>, i: nat, uprn: string, index: map<string, set<string>>, tools: seq<Tool>)
    requires i < table.Length0 && table.Length1 == |tools|
    requires forall t :: 0 <= t < |tools| ==> table[i, t] == 0
    modifies table
    ensures forall t :: 0 <= t < |tools| ==> table[i, t] == Flag(index, uprn, tools[t])
    ensures forall r, t :: 0 <= r < table.Length0 && r != i && 0 <= t < |tools| ==> table[r, t] == old(table[r, t])
  {
    if uprn in index {
      var available := index[uprn];
      for t := 0 to |tools|
        invariant forall s :: 0 <= s < t ==> table[i, s] == Flag(index, uprn, tools[s])
        invariant forall s :: t <= s < |tools| ==> table[i, s] == 0
        invariant forall r, s :: 0 <= r < table.Length0 && r != i && 0 <= s < |tools| ==> table[r, s] == old(table[r, s])
      {
        var success := ToolSuccess(tools[t], available);
        if success {
          table[i, t] := 1;
        }
      }
    }
  }

  /** Every count lies between 0 and the number of tools. */
  lemma CountsBounded(index: map<string, set<string>>, uprn: string, tools: seq<Tool>, flags: seq<int>)
    requires |flags| == |tools|
    requires forall t :: 0 <= t < |tools| ==> flags[t] == Flag(index, uprn, tools[t])
    ensures 0 <= RowSum(flags) <= |tools|
  {
    RowSumBounds(flags);
  }

  /** An address without a folder gets 0 from every tool. */
  lemma {:induction false} NoFolderNoTools(index: map<string, set<string>>, uprn: string, tools: seq<Tool>, flags: seq<int>)
    requires uprn !in index && |flags| == |tools|
    requires forall t :: 0 <= t < |tools| ==> flags[t] == Flag(index, uprn, tools[t])
    ensures RowSum(flags) == 0
    decreases |flags|
  {
    if flags != [] {
      var n := |flags| - 1;
      NoFolderNoTools(index, uprn, tools[..n], flags[..n]);
    }
  }
}
