/**
 * The per-address batch loop shared by the raster tools: an exception while
 * processing one address is caught, recorded as a line naming the address,
 * and the loop goes on; the recorded lines end up in a log file.
 */
module Batch {
  import Text

  /** How the work for one address ended. */
  datatype Attempt<T> = Completed(result: T) | Raised(kind: string, message: string)

  /** `f"{uprn} ({kind}: {e})"`, the entry kept for a failed address. */
  function FailureLine(uprn: string, kind: string, message: string): (line: string)
    ensures Text.StartsWith(line, uprn + " (") && Text.EndsWith(line, ")")
    ensures |line| == |uprn| + |kind| + |message| + 5
  {
    uprn + " (" + kind + ": " + message + ")"
  }

  /** The address is the first space-separated word of its failure line. */
  lemma FailureLineNamesAddress(uprn: string, kind: string, message: string)
    requires ' ' !in uprn
    ensures Text.Split(FailureLine(uprn, kind, message), ' ')[0] == uprn
  {
    var t := " (" + kind + ": " + message + ")";
    assert FailureLine(uprn, kind, message) == uprn + t;
    Text.SplitPrefix(uprn, t, ' ');
    assert t[0] == ' ';
    assert Text.Split(t, ' ')[0] == "";
    assert uprn + "" == uprn;
  }

  /** The failure list a batch over `uprns` leaves behind, in processing order. */
  function Failures<T>(uprns: seq<string>, attempts: seq<Attempt<T>>): seq<string>
    requires |uprns| == |attempts|
  {
    if |uprns| == 0 then []
    else
      var n := |uprns| - 1;
      Failures(uprns[..n], attempts[..n])
      + match attempts[n]
        case Completed(_) => []
        case Raised(kind, message) => [FailureLine(uprns[n], kind, message)]
  }

  /**
   * At most one entry per address; no entries exactly when every address
   * completed; each entry names an address that raised.
   */
  lemma {:induction false} FailuresFacts<T>(uprns: seq<string>, attempts: seq<Attempt<T>>)
    requires |uprns| == |attempts|
    ensures |Failures(uprns, attempts)| <= |uprns|
    ensures Failures(uprns, attempts) == [] <==> forall i :: 0 <= i < |attempts| ==> attempts[i].Completed?
    ensures forall line :: line in Failures(uprns, attempts) ==>
              exists i :: 0 <= i < |uprns| && attempts[i].Raised?
                          && line == FailureLine(uprns[i], attempts[i].kind, attempts[i].message)
  {
    if |uprns| > 0 {
      var n := |uprns| - 1;
      FailuresFacts(uprns[..n], attempts[..n]);
      var f := Failures(uprns, attempts);
      var g := Failures(uprns[..n], attempts[..n]);
      if attempts[n].Completed? {
        assert f == g + [];
        assert g == [] <==> forall i :: 0 <= i < n ==> attempts[i].Completed? by {
          assert forall i :: 0 <= i < n ==> attempts[..n][i] == attempts[i];
        }
      } else {
        assert f == g + [FailureLine(uprns[n], attempts[n].kind, attempts[n].message)];
      }
      forall line | line in f
        ensures exists i :: 0 <= i < |uprns| && attempts[i].Raised?
                            && line == FailureLine(uprns[i], attempts[i].kind, attempts[i].message)
      {
        if line in g {
          var i :| 0 <= i < n && attempts[..n][i].Raised?
                   && line == FailureLine(uprns[..n][i], attempts[..n][i].kind, attempts[..n][i].message);
          assert attempts[..n][i] == attempts[i] && uprns[..n][i] == uprns[i];
        }
      }
    }
  }

  /** The `failed_uprns.append` loop. */
  method CollectFailures<T>(uprns: seq<string>, attempts: seq<Attempt<T>>) returns (failed: seq<string>)
    requires |uprns| == |attempts|
    ensures failed == Failures(uprns, attempts)
  {
    failed := [];
    for i := 0 to |uprns|
      invariant failed == Failures(uprns[..i], attempts[..i])
    {
      assert uprns[..i + 1][..i] == uprns[..i] && attempts[..i + 1][..i] == attempts[..i];
      match attempts[i]
      case Completed(_) =>
      case Raised(kind, message) =>
        failed := failed + [FailureLine(uprns[i], kind, message)];
    }
    assert uprns[..|uprns|] == uprns && attempts[..|attempts|] == attempts;
  }

  /** A text file written one message per `write(message + '\n')`. */
  function LogFile(messages: seq<string>): string {
    if |messages| == 0 then "" else messages[0] + "\n" + LogFile(messages[1..])
  }

  /** The file is the messages joined by newlines, with a final newline. */
  lemma {:induction false} LogFileJoin(messages: seq<string>)
    ensures LogFile(messages) == Text.Join("\n", messages + [""])
  {
    if |messages| > 0 {
      LogFileJoin(messages[1..]);
      assert (messages + [""])[1..] == messages[1..] + [""];
      assert |messages + [""]| > 1;
    }
  }

  /** Messages free of newlines are read back line by line from the file. */
  lemma LogFileLines(messages: seq<string>)
    requires forall i :: 0 <= i < |messages| ==> '\n' !in messages[i]
    ensures Text.Split(LogFile(messages), '\n') == messages + [""]
  {
    LogFileJoin(messages);
    Text.SplitJoin(messages + [""], '\n');
  }
}
