/**
  `WorkerThread`: one conversion run over a directory of annotation files.
  The run is observed through the trace of what it emits and does: the
  worker's signals (log lines, runtime, progress, errors, the finished
  event) and its effects on the file system (removing and creating the
  output directory, writing a mask, copying a file), in the order they
  happen.

  What the run cannot see into is an input: the glob listing, the set of
  paths that exist, and for each annotation file the outcome of loading it
  and of rasterising its shapes. The cross-thread `stop()` is modelled as the
  set of iteration indices before whose flag check the controller has called
  it.
*/
module Worker {

  import opened Optional
  import opened Paths
  import opened FileOrder
  import opened LabelRemap
  import opened ColorMask

  /** The name sent with the finished event. */
  const OperationName: string := "Labelme to mask"

  /** The output directory, created inside the input directory. */
  const OutputDirName: string := "dataset"

  /** The log lines the run writes, by kind. */
  datatype LogLine =
    | Separator
    | Converting(input: string, output: string)
    | DeletingExisting(output: string)
    | FoundFiles(count: nat, input: string)

  /** The text of a reported exception. */
  datatype ErrorText =
    | ExceptionText(text: string)   // raised by code outside this model
    | NoSuchFile(path: string)      // `shutil.copy` of a path that does not exist
    | PaletteIndexError             // a grey value outside the palette's rows

  /** One signal emitted or one file-system effect, in trace order. */
  datatype Event =
    | LogMessage(line: LogLine)
    | RemovedTree(path: string)
    | MadeDirs(path: string)
    | MaskWritten(path: string, image: seq<seq<Bgr>>)
    | FileCopied(source: string, target: string)
    | RuntimeUpdated
    | ProgressUpdated(done: nat, total: nat)   // the percentage is int(done / total * 100)
    | OperationError(error: ErrorText)
    | OperationFinished(operation: string)

  /** What the rasteriser makes of a loaded annotation file. */
  datatype Raster = RasterFailed(reason: string) | Rasterized(lbl: Grid)

  /** What loading an annotation file and decoding its image gives. */
  datatype Load = LoadFailed(reason: string) | Loaded(raster: Raster)

  /**
    The world the run sees: the unordered glob result, the paths that exist,
    and the load outcome of each annotation file.
  */
  datatype Env = Env(listing: seq<string>, existing: set<string>, load: string -> Load)

  /** How the file loop ends. */
  datatype Exit =
    | Completed                       // every file visited
    | Stopped(at: nat)                // the flag was found cleared before file `at`
    | Raised(at: nat, reason: string) // file `at` failed to load; the exception left the loop

  /** The number of files the loop entered. */
  function ExitIndex(e: Exit, n: nat): nat {
    match e
    case Completed => n
    case Stopped(at) => at
    case Raised(at, _) => at
  }

  function OutputPath(dataDir: string): string {
    Join(dataDir, OutputDirName)
  }

  // ---------------------------------------------------------------------------
  // One file

  /** The signals that close a file that went through without an exception. */
  function Reported(i: nat, n: nat): seq<Event> {
    [RuntimeUpdated, ProgressUpdated(i + 1, n)]
  }

  /**
    The events of the inner `try` for file `file`, the `i`-th of `n`: remap,
    the sentinel gate, writing the colour mask, copying the raster and the
    annotation, and the progress report; an exception ends the block with one
    error event.
  */
  function FileEvents(file: string, i: nat, n: nat, outDir: string, existing: set<string>, r: Raster): (ev: seq<Event>)
    ensures ev != [] && (ev[|ev| - 1].OperationError? || ev[|ev| - 1] == ProgressUpdated(i + 1, n))
  {
    match r
    case RasterFailed(reason) => [OperationError(ExceptionText(reason))]
    case Rasterized(lbl) =>
      var mask := RemapGrid(lbl);
      if !Contains(mask, Sentinel) then Reported(i, n)
      else match GrayToColorMask(mask)
      case None => [OperationError(PaletteIndexError)]
      case Some(color) => ExportEvents(file, i, n, outDir, existing, color)
  }

  /**
    The export of a file that passed the gate: the colour mask is written,
    then the raster and the annotation are copied next to it, and the file is
    reported; a copy whose source does not exist raises and ends the block.
  */
  function ExportEvents(file: string, i: nat, n: nat, outDir: string, existing: set<string>, color: seq<seq<Bgr>>): seq<Event> {
    var companion := CompanionPath(file, existing);
    var written := [MaskWritten(MaskPath(outDir, file), color)];
    if companion !in existing then
      written + [OperationError(NoSuchFile(companion))]
    else
      var copied := written + [FileCopied(companion, Join(outDir, Basename(companion)))];
      if file !in existing then
        copied + [OperationError(NoSuchFile(file))]
      else
        copied + [FileCopied(file, Join(outDir, Basename(file)))] + Reported(i, n)
  }

  /** The events of file `files[j]` when the loop enters it: none if it fails to load. */
  function StepEvents(files: seq<string>, j: nat, outDir: string, env: Env): (ev: seq<Event>)
    requires j < |files|
    ensures ev == [] <==> env.load(files[j]).LoadFailed?
  {
    match env.load(files[j])
    case Loaded(r) => FileEvents(files[j], j, |files|, outDir, env.existing, r)
    case LoadFailed(_) => []
  }

  /** File `j` neither meets a cleared flag nor fails to load (`running` is the flag at entry `i`). */
  predicate Proceeds(files: seq<string>, j: nat, i: nat, running: bool, stops: set<nat>, env: Env)
    requires j < |files|
  {
    j !in stops && (j == i ==> running) && env.load(files[j]).Loaded?
  }

  /** The event lists `ss`, one after the other. */
  function Flatten(ss: seq<seq<Event>>): seq<Event>
    decreases |ss|
  {
    if ss == [] then [] else Flatten(ss[..|ss| - 1]) + ss[|ss| - 1]
  }

  /** The event lists of the first `n` files, each as if the loop entered it. */
  function Steps(files: seq<string>, n: nat, outDir: string, env: Env): (ss: seq<seq<Event>>)
    requires n <= |files|
    ensures |ss| == n
  {
    seq(n, k requires 0 <= k < n => StepEvents(files, k, outDir, env))
  }

  // ---------------------------------------------------------------------------
  // The loop and the run

  /**
    How the file loop ends when it reaches index `i` with flag `running`: the
    flag is tested first, then the file is loaded (an exception there leaves
    the loop), then its inner block runs and the loop goes on.
  */
  function LoopExit(files: seq<string>, i: nat, running: bool, stops: set<nat>, env: Env): Exit
    requires i <= |files|
    decreases |files| - i
  {
    if i == |files| then Completed
    else if !running || i in stops then Stopped(i)
    else match env.load(files[i])
      case LoadFailed(reason) => Raised(i, reason)
      case Loaded(_) => LoopExit(files, i + 1, true, stops, env)
  }

  /** The events of the loop that ends with `exit`: those of every file it entered. */
  function LoopEvents(files: seq<string>, exit: Exit, outDir: string, env: Env): seq<Event>
    requires ExitIndex(exit, |files|) <= |files|
  {
    Flatten(Steps(files, ExitIndex(exit, |files|), outDir, env))
  }

  /** The events before the loop: log lines, replacing the output directory. */
  function Header(dataDir: string, count: nat, existing: set<string>): seq<Event> {
    var outDir := OutputPath(dataDir);
    [LogMessage(Separator), LogMessage(Converting(dataDir, outDir))]
    + (if outDir in existing then [LogMessage(DeletingExisting(outDir)), RemovedTree(outDir)] else [])
    + [MadeDirs(outDir), LogMessage(FoundFiles(count, dataDir)), LogMessage(Separator)]
  }

  /** How the loop of a run over `dataDir` ends; the files are visited in sorted order. */
  function RunExit(dataDir: string, env: Env, running: bool, stops: set<nat>): (e: Exit)
    ensures ExitIndex(e, |env.listing|) <= |env.listing|
  {
    var files := SortPaths(env.listing);
    LoopExitIndexInRange(files, 0, running, stops, env);
    LoopExit(files, 0, running, stops, env)
  }

  /** What follows the loop in `labelme_to_mask`: the finished event after a full loop. */
  function Closing(e: Exit): seq<Event> {
    if e.Completed? then [OperationFinished(OperationName)] else []
  }

  /** What `run()` adds: the one error event of an exception that left `labelme_to_mask`. */
  function Escaped(e: Exit): seq<Event> {
    if e.Raised? then [OperationError(ExceptionText(e.reason))] else []
  }

  /** The whole trace of `run()`. */
  function RunEvents(dataDir: string, env: Env, running: bool, stops: set<nat>): seq<Event> {
    var files := SortPaths(env.listing);
    var exit := RunExit(dataDir, env, running, stops);
    Header(dataDir, |env.listing|, env.existing)
      + LoopEvents(files, exit, OutputPath(dataDir), env) + Closing(exit) + Escaped(exit)
  }

  lemma {:induction false} LoopExitIndexInRange(files: seq<string>, i: nat, running: bool, stops: set<nat>, env: Env)
    requires i <= |files|
    ensures i <= ExitIndex(LoopExit(files, i, running, stops, env), |files|) <= |files|
    decreases |files| - i
  {
    if i < |files| && running && i !in stops && env.load(files[i]).Loaded? {
      LoopExitIndexInRange(files, i + 1, true, stops, env);
    }
  }

  /** The events of the first `n + 1` files: those of the first `n`, then file `n`'s. */
  lemma StepsSnoc(files: seq<string>, n: nat, outDir: string, env: Env)
    requires n < |files|
    ensures Flatten(Steps(files, n + 1, outDir, env)) ==
            Flatten(Steps(files, n, outDir, env)) + StepEvents(files, n, outDir, env)
  {
    var ss := Steps(files, n + 1, outDir, env);
    assert ss[..n] == Steps(files, n, outDir, env);
  }

  lemma AppendAssoc(a: seq<Event>, b: seq<Event>, c: seq<Event>)
    ensures a + b + c == a + (b + c)
  {
  }

  // ---------------------------------------------------------------------------
  // The worker object

  class WorkerThread {
    /** `_is_running`: cleared by `Stop`, tested before every file. */
    var isRunning: bool
    /** Everything emitted or done so far. */
    var trace: seq<Event>
    const dataDir: string

    constructor (dataDir: string)
      ensures this.dataDir == dataDir && isRunning && trace == []
    {
      this.dataDir := dataDir;
      isRunning := true;
      trace := [];
    }

    method Stop()
      modifies this`isRunning
      ensures !isRunning
    {
      isRunning := false;
    }

    method Emit(e: Event)
      modifies this`trace
      ensures trace == old(trace) + [e]
    {
      trace := trace + [e];
    }

    /** `run()`: the conversion, with an escaping exception turned into one error event. */
    method Run(env: Env, stops: set<nat>)
      modifies this`trace, this`isRunning
      ensures trace == old(trace) + RunEvents(dataDir, env, old(isRunning), stops)
      ensures isRunning == (old(isRunning) && !RunExit(dataDir, env, old(isRunning), stops).Stopped?)
    {
      ghost var t0 := trace;
      ghost var exit := RunExit(dataDir, env, isRunning, stops);
      ghost var header := Header(dataDir, |env.listing|, env.existing);
      ghost var loop := LoopEvents(SortPaths(env.listing), exit, OutputPath(dataDir), env);
      var raised := LabelmeToMask(dataDir, env, stops);
      AppendAssoc(t0, header, loop);
      AppendAssoc(t0, header + loop, Closing(exit));
      if raised.Some? {
        Emit(OperationError(ExceptionText(raised.value)));
      }
      AppendAssoc(t0, header + loop + Closing(exit), Escaped(exit));
    }

    /**
      `labelme_to_mask(input_path)`: `raised` is the exception that leaves
      it, if any.
    */
    method LabelmeToMask(inputPath: string, env: Env, stops: set<nat>) returns (raised: Option<string>)
      modifies this`trace, this`isRunning
      ensures
        var exit := RunExit(inputPath, env, old(isRunning), stops);
        && trace == old(trace) + Header(inputPath, |env.listing|, env.existing)
             + LoopEvents(SortPaths(env.listing), exit, OutputPath(inputPath), env) + Closing(exit)
        && raised == (if exit.Raised? then Some(exit.reason) else None)
        && isRunning == (old(isRunning) && !exit.Stopped?)
    {
      var outputPath := Join(inputPath, OutputDirName);
      var files := SortPaths(env.listing);
      PrepareOutput(inputPath, outputPath, |files|, env.existing);
      var exit := ConvertAll(files, outputPath, env, stops);
      if exit.Completed? {
        Emit(OperationFinished(OperationName));
      }
      raised := if exit.Raised? then Some(exit.reason) else None;
    }

    /**
      The log lines before the loop, and the output directory deleted when
      it exists and created again.
    */
    method PrepareOutput(inputPath: string, outputPath: string, count: nat, existing: set<string>)
      requires outputPath == OutputPath(inputPath)
      modifies this`trace
      ensures trace == old(trace) + Header(inputPath, count, existing)
    {
      Emit(LogMessage(Separator));
      Emit(LogMessage(Converting(inputPath, outputPath)));
      if outputPath in existing {
        Emit(LogMessage(DeletingExisting(outputPath)));
        Emit(RemovedTree(outputPath));
      }
      Emit(MadeDirs(outputPath));
      Emit(LogMessage(FoundFiles(count, inputPath)));
      Emit(LogMessage(Separator));
    }

    /** The `for` loop over the sorted files, with the stop check before each one. */
    method ConvertAll(files: seq<string>, outputPath: string, env: Env, stops: set<nat>) returns (exit: Exit)
      modifies this`trace, this`isRunning
      ensures exit == LoopExit(files, 0, old(isRunning), stops, env)
      ensures ExitIndex(exit, |files|) <= |files|
      ensures trace == old(trace) + LoopEvents(files, exit, outputPath, env)
      ensures isRunning == (old(isRunning) && !exit.Stopped?)
    {
      ghost var t0 := trace;
      ghost var run0 := isRunning;
      var i := 0;
      while i < |files|
        invariant 0 <= i <= |files|
        invariant isRunning == (run0 || i > 0)
        invariant LoopExit(files, 0, run0, stops, env) == LoopExit(files, i, isRunning, stops, env)
        invariant trace == t0 + Flatten(Steps(files, i, outputPath, env))
      {
        ghost var before := Flatten(Steps(files, i, outputPath, env));
        var left := VisitFile(files, i, outputPath, env, stops);
        if left.Some? {
          return left.value;
        }
        StepsSnoc(files, i, outputPath, env);
        AppendAssoc(t0, before, StepEvents(files, i, outputPath, env));
        i := i + 1;
      }
      return Completed;
    }

    /**
      One iteration: the flag check, loading the file, and its inner `try`.
      `left` is how the loop ends when it ends here.
    */
    method VisitFile(files: seq<string>, i: nat, outputPath: string, env: Env, stops: set<nat>)
      returns (left: Option<Exit>)
      requires i < |files|
      modifies this`trace, this`isRunning
      ensures left.Some? ==>
        && left.value == LoopExit(files, i, old(isRunning), stops, env)
        && ExitIndex(left.value, |files|) == i
        && trace == old(trace)
        && isRunning == (old(isRunning) && !left.value.Stopped?)
      ensures left.None? ==>
        && LoopExit(files, i, old(isRunning), stops, env) == LoopExit(files, i + 1, true, stops, env)
        && trace == old(trace) + StepEvents(files, i, outputPath, env)
        && isRunning
    {
      if i in stops {
        Stop();
      }
      if !isRunning {
        return Some(Stopped(i));
      }
      match env.load(files[i]) {
        case LoadFailed(reason) =>
          return Some(Raised(i, reason));
        case Loaded(raster) =>
          var events := ConvertFile(files[i], i, |files|, outputPath, env.existing, raster);
          trace := trace + events;
          return None;
      }
    }
  }

  /**
    The inner `try` for one loaded file, on the arrays the source mutates:
    rasterised labels, the remapped mask, the sentinel test, then the writes,
    copies and progress report.
  */
  method ConvertFile(file: string, i: nat, n: nat, outDir: string, existing: set<string>, raster: Raster)
    returns (events: seq<Event>)
    ensures events == FileEvents(file, i, n, outDir, existing, raster)
  {
    match raster {
      case RasterFailed(reason) =>
        events := [OperationError(ExceptionText(reason))];
      case Rasterized(lbl) =>
        var lblArray := NewLabelArray(lbl);
        var mask := RemapLabels(lblArray);
        var gray := Rows(mask);
        assert gray == RemapGrid(lbl) by {
          forall r | 0 <= r < |lbl| ensures gray[r] == RemapGrid(lbl)[r] {
            assert |gray[r]| == Width(lbl) == |RemapGrid(lbl)[r]|;
          }
        }
        if !Contains(gray, Sentinel) {
          events := Reported(i, n);
          return;
        }
        RemapThenColor(lbl);
        var color := GrayToColorMask(gray).value;
        events := [MaskWritten(MaskPath(outDir, file), color)];
        assert events == [MaskWritten(MaskPath(outDir, file), GrayToColorMask(RemapGrid(lbl)).value)];
        var companion := PairedPath(file, SelectSuffix(file, existing));
        if companion !in existing {
          events := events + [OperationError(NoSuchFile(companion))];
          return;
        }
        events := events + [FileCopied(companion, Join(outDir, Basename(companion)))];
        if file !in existing {
          events := events + [OperationError(NoSuchFile(file))];
          return;
        }
        events := events + [FileCopied(file, Join(outDir, Basename(file)))] + Reported(i, n);
    }
  }
}
