/**
  The bookkeeping of `TrajectoryParser.process_all_trajectories`: every file the glob found is
  parsed and converted; a file that raises is skipped and the loop goes on.
 */
module Batch {
  import opened Wrappers
  import opened AgentConfigs
  import opened Trajectory
  import opened DocentFormat

  /** One file the glob found: its path, and what opening and decoding it gives, either the
      decoded trajectory or the message of the exception raised on the way. */
  datatype TrajectoryFile = TrajectoryFile(path: string, content: Result<RawTrajectory, string>)

  /** The run a loadable file contributes. */
  function RunFor(config: Config, f: TrajectoryFile): Run
    requires f.content.Success?
  {
    RunOf(ParsedTrajectoryOf(config, f.path, f.content.value))
  }

  /** `all_runs` after the loop has gone over `files`. */
  function AllRuns(config: Config, files: seq<TrajectoryFile>): seq<Run> {
    if files == [] then []
    else
      var f := files[|files| - 1];
      AllRuns(config, files[..|files| - 1]) + (if f.content.Success? then [RunFor(config, f)] else [])
  }

  /** `processed_files` after the loop has gone over `files`. */
  function Processed(files: seq<TrajectoryFile>): seq<string> {
    if files == [] then []
    else
      var f := files[|files| - 1];
      Processed(files[..|files| - 1]) + (if f.content.Success? then [f.path] else [])
  }

  /** The files that load, in discovery order. */
  function Loaded(files: seq<TrajectoryFile>): (r: seq<TrajectoryFile>)
    ensures forall i :: 0 <= i < |r| ==> r[i].content.Success?
  {
    if files == [] then []
    else
      var f := files[|files| - 1];
      Loaded(files[..|files| - 1]) + (if f.content.Success? then [f] else [])
  }

  /**
    `process_all_trajectories()`, over the files the glob returned, in that order. The
    `try`/`except` is the match on the file's content: a file whose reading raised adds
    nothing, and the loop carries on with the next one.
   */
  method ProcessAllTrajectories(config: Config, jsonFiles: seq<TrajectoryFile>)
    returns (allRuns: seq<Run>, processedFiles: seq<string>)
    ensures allRuns == AllRuns(config, jsonFiles)
    ensures processedFiles == Processed(jsonFiles)
  {
    allRuns := [];
    processedFiles := [];
    for i := 0 to |jsonFiles|
      invariant allRuns == AllRuns(config, jsonFiles[..i])
      invariant processedFiles == Processed(jsonFiles[..i])
    {
      var jsonFile := jsonFiles[i];
      match jsonFile.content
      case Success(data) =>
        var parsedData := ParseTrajectoryFile(config, jsonFile.path, data);
        var docentRuns := ConvertToDocentFormat(parsedData);
        allRuns := allRuns + docentRuns;
        processedFiles := processedFiles + [jsonFile.path];
      case Failure(_) =>
      assert jsonFiles[..i + 1][..i] == jsonFiles[..i];
    }
    assert jsonFiles[..|jsonFiles|] == jsonFiles;
  }

  /** The two outputs correspond index by index with the files that load: the i-th run is the
      run of the i-th such file, whose path is the i-th processed file. */
  lemma {:induction false} OutputsMatchLoaded(config: Config, files: seq<TrajectoryFile>)
    ensures |AllRuns(config, files)| == |Processed(files)| == |Loaded(files)|
    ensures forall i :: 0 <= i < |Loaded(files)| ==>
      Processed(files)[i] == Loaded(files)[i].path && AllRuns(config, files)[i] == RunFor(config, Loaded(files)[i])
  {
    if files != [] {
      OutputsMatchLoaded(config, files[..|files| - 1]);
    }
  }

  /** A file loads and is kept exactly when it is one of the files and it does not raise. */
  lemma {:induction false} LoadedMembers(files: seq<TrajectoryFile>)
    ensures forall f :: f in Loaded(files) <==> f in files && f.content.Success?
  {
    if files != [] {
      var init := files[..|files| - 1];
      LoadedMembers(init);
      assert files == init + [files[|files| - 1]];
    }
  }

  /** Going over `a` then `b` keeps the files of `a` that load, then those of `b`: discovery order. */
  lemma {:induction false} LoadedAppend(a: seq<TrajectoryFile>, b: seq<TrajectoryFile>)
    ensures Loaded(a + b) == Loaded(a) + Loaded(b)
  {
    if b == [] {
      assert a + b == a;
    } else {
      var b' := b[..|b| - 1];
      assert (a + b)[..|a + b| - 1] == a + b';
      assert (a + b)[|a + b| - 1] == b[|b| - 1];
      LoadedAppend(a, b');
    }
  }

  /** The outputs over `a` then `b` are those over `a` followed by those over `b`. */
  lemma {:induction false} OutputsAppend(config: Config, a: seq<TrajectoryFile>, b: seq<TrajectoryFile>)
    ensures AllRuns(config, a + b) == AllRuns(config, a) + AllRuns(config, b)
    ensures Processed(a + b) == Processed(a) + Processed(b)
  {
    if b == [] {
      assert a + b == a;
    } else {
      var b' := b[..|b| - 1];
      assert (a + b)[..|a + b| - 1] == a + b';
      assert (a + b)[|a + b| - 1] == b[|b| - 1];
      OutputsAppend(config, a, b');
    }
  }

  /** A file that raises adds nothing to either output, and the files after it go through as
      if it were not there. */
  lemma FailureIsolated(config: Config, before: seq<TrajectoryFile>, bad: TrajectoryFile, after: seq<TrajectoryFile>)
    requires bad.content.Failure?
    ensures AllRuns(config, before + [bad] + after) == AllRuns(config, before) + AllRuns(config, after)
    ensures Processed(before + [bad] + after) == Processed(before) + Processed(after)
  {
    OutputsAppend(config, before + [bad], after);
    OutputsAppend(config, before, [bad]);
    assert [bad][..0] == [];
  }

  /** When every file loads, every file is kept. */
  lemma {:induction false} LoadedAll(files: seq<TrajectoryFile>)
    requires forall i :: 0 <= i < |files| ==> files[i].content.Success?
    ensures Loaded(files) == files
  {
    if files != [] {
      var init := files[..|files| - 1];
      LoadedAll(init);
      assert files == init + [files[|files| - 1]];
    }
  }

  /** When every file loads, every file is processed, in discovery order, with one run each. */
  lemma AllLoad(config: Config, files: seq<TrajectoryFile>)
    requires forall i :: 0 <= i < |files| ==> files[i].content.Success?
    ensures |AllRuns(config, files)| == |files|
    ensures Processed(files) == seq(|files|, i requires 0 <= i < |files| => files[i].path)
  {
    LoadedAll(files);
    OutputsMatchLoaded(config, files);
  }
}
