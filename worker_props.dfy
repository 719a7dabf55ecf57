/**
  What a conversion run promises, stated over the functions that specify
  `WorkerThread.Run`: when the loop ends and why, which files give output,
  when progress is reported, and that the finished event comes exactly once,
  last, and only after a complete loop.
*/
module WorkerProperties {

  import opened Optional
  import opened Paths
  import opened FileOrder
  import opened LabelRemap
  import opened ColorMask
  import opened Worker

  // ---------------------------------------------------------------------------
  // The loop's exit

  /**
    The loop entered at `i` leaves at the first file that does not proceed
    (the flag found cleared, or a load that raises), or completes when every
    file proceeds; the kind of exit says which of the two happened.
  */
  lemma {:induction false} LoopExitSpec(files: seq<string>, i: nat, running: bool, stops: set<nat>, env: Env)
    requires i <= |files|
    ensures
      var e := LoopExit(files, i, running, stops, env);
      var k := ExitIndex(e, |files|);
      && i <= k <= |files|
      && (forall j :: i <= j < k ==> Proceeds(files, j, i, running, stops, env))
      && (k < |files| ==> !Proceeds(files, k, i, running, stops, env))
      && (e.Completed? <==> k == |files|)
      && (e.Stopped? ==> k < |files| && (k in stops || (k == i && !running)))
      && (e.Raised? ==>
            && k < |files| && k !in stops && (k == i ==> running)
            && env.load(files[k]) == LoadFailed(e.reason))
    decreases |files| - i
  {
    if i < |files| && running && i !in stops && env.load(files[i]).Loaded? {
      LoopExitSpec(files, i + 1, true, stops, env);
      var k := ExitIndex(LoopExit(files, i, running, stops, env), |files|);
      forall j | i <= j < k ensures Proceeds(files, j, i, running, stops, env) {
        if j > i {
          assert Proceeds(files, j, i + 1, true, stops, env);
        }
      }
    }
  }

  /**
    An exception inside a file's inner block is reported and the loop goes
    on: two worlds whose loads raise alike, with the same text, end the loop
    alike, whatever the rasteriser, the remap, the palette and the copies do.
  */
  lemma {:induction false} ExitIgnoresRasterOutcomes(files: seq<string>, i: nat, running: bool, stops: set<nat>, env1: Env, env2: Env)
    requires i <= |files|
    requires forall j :: i <= j < |files| ==> env1.load(files[j]).LoadFailed? == env2.load(files[j]).LoadFailed?
    requires forall j :: i <= j < |files| && env1.load(files[j]).LoadFailed? ==> env1.load(files[j]).reason == env2.load(files[j]).reason
    ensures LoopExit(files, i, running, stops, env1) == LoopExit(files, i, running, stops, env2)
    decreases |files| - i
  {
    if i < |files| && running && i !in stops {
      if env1.load(files[i]).Loaded? {
        ExitIgnoresRasterOutcomes(files, i + 1, true, stops, env1, env2);
      }
    }
  }

  /** A file whose rasterisation raises gives one error event and the loop moves on. */
  lemma InnerErrorContinues(files: seq<string>, j: nat, stops: set<nat>, env: Env, outDir: string, reason: string)
    requires j < |files| && j !in stops
    requires env.load(files[j]) == Loaded(RasterFailed(reason))
    ensures LoopExit(files, j, true, stops, env) == LoopExit(files, j + 1, true, stops, env)
    ensures StepEvents(files, j, outDir, env) == [OperationError(ExceptionText(reason))]
  {
  }

  // ---------------------------------------------------------------------------
  // Event lists

  /** No event of `s` is the finished event. */
  predicate NoFinish(s: seq<Event>) {
    forall k :: 0 <= k < |s| ==> !s[k].OperationFinished?
  }

  lemma FileEventsNoFinish(file: string, i: nat, n: nat, outDir: string, existing: set<string>, r: Raster)
    ensures NoFinish(FileEvents(file, i, n, outDir, existing, r))
  {
    FileEventsCases(file, i, n, outDir, existing, r);
    if r.Rasterized? && Contains(r.lbl, Sentinel) {
      ExportNoFinish(file, i, n, outDir, existing, GrayToColorMask(RemapGrid(r.lbl)).value);
    }
  }

  lemma {:induction false} FlattenNoFinish(ss: seq<seq<Event>>)
    requires forall k :: 0 <= k < |ss| ==> NoFinish(ss[k])
    ensures NoFinish(Flatten(ss))
    decreases |ss|
  {
    if ss != [] {
      var front := ss[..|ss| - 1];
      assert forall k :: 0 <= k < |front| ==> front[k] == ss[k];
      FlattenNoFinish(front);
    }
  }

  lemma LoopEventsNoFinish(files: seq<string>, exit: Exit, outDir: string, env: Env)
    requires ExitIndex(exit, |files|) <= |files|
    ensures NoFinish(LoopEvents(files, exit, outDir, env))
  {
    var ss := Steps(files, ExitIndex(exit, |files|), outDir, env);
    forall k | 0 <= k < |ss| ensures NoFinish(ss[k]) {
      match env.load(files[k])
      case LoadFailed(_) =>
      case Loaded(r) => FileEventsNoFinish(files[k], k, |files|, outDir, env.existing, r);
    }
    FlattenNoFinish(ss);
  }

  // ---------------------------------------------------------------------------
  // The run

  /**
    The finished event is emitted exactly when the loop visited every file:
    then it is the last event and occurs nowhere else; otherwise it does not
    occur at all.
  */
  lemma FinishedExactlyOnce(dataDir: string, env: Env, running: bool, stops: set<nat>)
    ensures
      var e := RunExit(dataDir, env, running, stops);
      var ev := RunEvents(dataDir, env, running, stops);
      && (e.Completed? ==>
            && ev != [] && ev[|ev| - 1] == OperationFinished(OperationName)
            && NoFinish(ev[..|ev| - 1]))
      && (!e.Completed? ==> NoFinish(ev))
  {
    var e := RunExit(dataDir, env, running, stops);
    var files := SortPaths(env.listing);
    var h := Header(dataDir, |env.listing|, env.existing);
    var l := LoopEvents(files, e, OutputPath(dataDir), env);
    HeaderNoFinish(dataDir, |env.listing|, env.existing);
    LoopEventsNoFinish(files, e, OutputPath(dataDir), env);
    NoFinishAppend(h, l);
    ClosingFinishesOnce(h + l, e);
  }

  lemma HeaderNoFinish(dataDir: string, count: nat, existing: set<string>)
    ensures NoFinish(Header(dataDir, count, existing))
  {
  }

  lemma NoFinishAppend(a: seq<Event>, b: seq<Event>)
    requires NoFinish(a) && NoFinish(b)
    ensures NoFinish(a + b)
  {
    forall k | 0 <= k < |a + b| ensures !(a + b)[k].OperationFinished? {
      if k >= |a| { assert (a + b)[k] == b[k - |a|]; }
    }
  }

  /** After events without the finished event, the closing adds it exactly when the loop completed. */
  lemma ClosingFinishesOnce(p: seq<Event>, e: Exit)
    requires NoFinish(p)
    ensures
      var ev := p + Closing(e) + Escaped(e);
      && (e.Completed? ==>
            && ev != [] && ev[|ev| - 1] == OperationFinished(OperationName)
            && NoFinish(ev[..|ev| - 1]))
      && (!e.Completed? ==> NoFinish(ev))
  {
    var ev := p + Closing(e) + Escaped(e);
    if e.Completed? {
      assert ev == p + [OperationFinished(OperationName)];
      assert ev[..|ev| - 1] == p;
    } else if e.Raised? {
      assert ev == p + [OperationError(ExceptionText(e.reason))];
    } else {
      assert ev == p;
    }
  }

  /**
    A `stop()` that lands before file `k` is visited ends the loop at `k` or
    earlier, and the run then never reports that it finished.
  */
  lemma StopEndsRunEarly(dataDir: string, env: Env, running: bool, stops: set<nat>, k: nat)
    requires k < |env.listing| && k in stops
    ensures ExitIndex(RunExit(dataDir, env, running, stops), |env.listing|) <= k
    ensures !RunExit(dataDir, env, running, stops).Completed?
    ensures NoFinish(RunEvents(dataDir, env, running, stops))
  {
    var files := SortPaths(env.listing);
    LoopExitSpec(files, 0, running, stops, env);
    assert RunExit(dataDir, env, running, stops) == LoopExit(files, 0, running, stops, env);
    assert !Proceeds(files, k, 0, running, stops, env);
    FinishedExactlyOnce(dataDir, env, running, stops);
  }

  /**
    A stopped run ends quietly after the last file it entered: no error and
    no finished event follow the loop's events.
  */
  lemma StoppedRunEndsQuietly(dataDir: string, env: Env, running: bool, stops: set<nat>)
    requires RunExit(dataDir, env, running, stops).Stopped?
    ensures
      var e := RunExit(dataDir, env, running, stops);
      RunEvents(dataDir, env, running, stops) ==
        Header(dataDir, |env.listing|, env.existing)
        + Flatten(Steps(SortPaths(env.listing), e.at, OutputPath(dataDir), env))
  {
  }

  /**
    A worker stopped before `run()` does no file when there is one, but with
    no files at all its empty loop completes and it reports finished.
  */
  lemma StoppedBeforeStart(dataDir: string, env: Env, stops: set<nat>)
    ensures |env.listing| > 0 ==> RunExit(dataDir, env, false, stops) == Stopped(0)
    ensures |env.listing| > 0 ==>
              RunEvents(dataDir, env, false, stops) == Header(dataDir, |env.listing|, env.existing)
    ensures |env.listing| == 0 ==> RunExit(dataDir, env, false, stops) == Completed
  {
    assert |SortPaths(env.listing)| == |env.listing|;
    if |env.listing| > 0 {
      assert Steps(SortPaths(env.listing), 0, OutputPath(dataDir), env) == [];
    }
  }

  /**
    A load that raises leaves the loop and `labelme_to_mask`: the run ends
    with that exception's one error event, without the finished event, and
    no later file is visited.
  */
  lemma LoadFailureEndsRun(dataDir: string, env: Env, running: bool, stops: set<nat>)
    requires RunExit(dataDir, env, running, stops).Raised?
    ensures
      var e := RunExit(dataDir, env, running, stops);
      var files := SortPaths(env.listing);
      && e.at < |files| && env.load(files[e.at]) == LoadFailed(e.reason)
      && RunEvents(dataDir, env, running, stops) ==
           Header(dataDir, |env.listing|, env.existing)
           + Flatten(Steps(files, e.at, OutputPath(dataDir), env))
           + [OperationError(ExceptionText(e.reason))]
      && NoFinish(RunEvents(dataDir, env, running, stops))
  {
    LoopExitSpec(SortPaths(env.listing), 0, running, stops, env);
    FinishedExactlyOnce(dataDir, env, running, stops);
  }

  /**
    The run depends on which annotation files the directory holds, not on
    the order in which the listing returns them.
  */
  lemma RunIgnoresListingOrder(dataDir: string, env1: Env, env2: Env, running: bool, stops: set<nat>)
    requires multiset(env1.listing) == multiset(env2.listing)
    requires env1.existing == env2.existing && env1.load == env2.load
    ensures RunExit(dataDir, env1, running, stops) == RunExit(dataDir, env2, running, stops)
    ensures RunEvents(dataDir, env1, running, stops) == RunEvents(dataDir, env2, running, stops)
  {
    VisitOrderIgnoresListingOrder(env1.listing, env2.listing);
    var files := SortPaths(env1.listing);
    assert |env1.listing| == |files| == |env2.listing|;
    ExitIgnoresRasterOutcomes(files, 0, running, stops, env1, env2);
    var e := RunExit(dataDir, env1, running, stops);
    var n := ExitIndex(e, |files|);
    assert Steps(files, n, OutputPath(dataDir), env1) == Steps(files, n, OutputPath(dataDir), env2);
  }

  /**
    The output directory is deleted exactly when it already exists, and is
    always created before any file is visited.
  */
  lemma HeaderRecreatesOutput(dataDir: string, count: nat, existing: set<string>)
    ensures
      var h := Header(dataDir, count, existing);
      && (RemovedTree(OutputPath(dataDir)) in h <==> OutputPath(dataDir) in existing)
      && h[|h| - 3] == MadeDirs(OutputPath(dataDir))
      && h[|h| - 2] == LogMessage(FoundFiles(count, dataDir))
      && NoFinish(h)
  {
  }

  // ---------------------------------------------------------------------------
  // One file

  /**
    A loaded file goes through without an exception: it rasterises, and when
    it passes the gate both files it copies exist.
  */
  predicate Succeeds(file: string, existing: set<string>, r: Raster) {
    r.Rasterized? &&
    (Contains(r.lbl, Sentinel) ==> CompanionPath(file, existing) in existing && file in existing)
  }

  /** Some event of `s` reports progress. */
  predicate HasProgress(s: seq<Event>) {
    exists k :: 0 <= k < |s| && s[k].ProgressUpdated?
  }

  /**
    Progress is reported for a file exactly when it goes through, as its
    last event and as `i + 1` of `n`; otherwise its block ends with an error.
  */
  lemma ProgressOnlyOnSuccess(file: string, i: nat, n: nat, outDir: string, existing: set<string>, r: Raster)
    ensures
      var ev := FileEvents(file, i, n, outDir, existing, r);
      && (HasProgress(ev) <==> Succeeds(file, existing, r))
      && (Succeeds(file, existing, r) ==>
            |ev| >= 2 && ev[|ev| - 2..] == Reported(i, n) && !HasProgress(ev[..|ev| - 2]))
      && (!Succeeds(file, existing, r) ==> ev != [] && ev[|ev| - 1].OperationError?)
  {
    FileEventsCases(file, i, n, outDir, existing, r);
    var ev := FileEvents(file, i, n, outDir, existing, r);
    if r.RasterFailed? {
      assert ev == [OperationError(ExceptionText(r.reason))];
    } else if !Contains(r.lbl, Sentinel) {
      assert ev == Reported(i, n) && ev[1].ProgressUpdated?;
    } else {
      ExportProgress(file, i, n, outDir, existing, GrayToColorMask(RemapGrid(r.lbl)).value);
    }
  }

  /**
    The last file's progress is the whole batch: when the loop completes and
    the last file goes through, its report is `n` of `n` and is followed
    only by the finished event.
  */
  lemma LastProgressIsWholeBatch(dataDir: string, env: Env, running: bool, stops: set<nat>)
    requires RunExit(dataDir, env, running, stops).Completed?
    requires |env.listing| > 0
    requires
      var files := SortPaths(env.listing);
      env.load(files[|files| - 1]).Loaded? &&
      Succeeds(files[|files| - 1], env.existing, env.load(files[|files| - 1]).raster)
    ensures
      var ev := RunEvents(dataDir, env, running, stops);
      var n := |env.listing|;
      |ev| >= 3 && ev[|ev| - 2] == ProgressUpdated(n, n) && ev[|ev| - 1] == OperationFinished(OperationName)
  {
    var files := SortPaths(env.listing);
    var out := OutputPath(dataDir);
    var h := Header(dataDir, |env.listing|, env.existing);
    var l := LoopEvents(files, Completed, out, env);
    CompletedLoopEndsWithProgress(files, out, env);
    HeaderNonEmpty(dataDir, |env.listing|, env.existing);
    EndsWithProgressThenFinish(h, l, RunExit(dataDir, env, running, stops), |env.listing|);
  }

  lemma HeaderNonEmpty(dataDir: string, count: nat, existing: set<string>)
    ensures |Header(dataDir, count, existing)| >= 1
  {
  }

  lemma EndsWithProgressThenFinish(h: seq<Event>, l: seq<Event>, e: Exit, n: nat)
    requires e.Completed? && |h| >= 1 && l != [] && l[|l| - 1] == ProgressUpdated(n, n)
    ensures
      var ev := h + l + Closing(e) + Escaped(e);
      |ev| >= 3 && ev[|ev| - 2] == ProgressUpdated(n, n) && ev[|ev| - 1] == OperationFinished(OperationName)
  {
    assert h + l + Closing(e) + Escaped(e) == h + l + [OperationFinished(OperationName)];
  }

  /** A complete loop whose last file goes through ends with that file's report. */
  lemma CompletedLoopEndsWithProgress(files: seq<string>, outDir: string, env: Env)
    requires |files| > 0 && env.load(files[|files| - 1]).Loaded?
    requires Succeeds(files[|files| - 1], env.existing, env.load(files[|files| - 1]).raster)
    ensures
      var l := LoopEvents(files, Completed, outDir, env);
      l != [] && l[|l| - 1] == ProgressUpdated(|files|, |files|)
  {
    var n := |files|;
    SucceedingStepEndsWithProgress(files, n - 1, outDir, env);
    StepsSnoc(files, n - 1, outDir, env);
  }

  /** A file that loads and goes through ends its events with its progress report. */
  lemma SucceedingStepEndsWithProgress(files: seq<string>, j: nat, outDir: string, env: Env)
    requires j < |files| && env.load(files[j]).Loaded?
    requires Succeeds(files[j], env.existing, env.load(files[j]).raster)
    ensures
      var step := StepEvents(files, j, outDir, env);
      step != [] && step[|step| - 1] == ProgressUpdated(j + 1, |files|)
  {
    var r := env.load(files[j]).raster;
    ProgressOnlyOnSuccess(files[j], j, |files|, outDir, env.existing, r);
  }

  /**
    The three ways a loaded file's inner block goes: a rasterising error is
    reported, a file without the sentinel only reports progress, and a file
    with it is exported with the colour mask of its remapped labels.
  */
  lemma FileEventsCases(file: string, i: nat, n: nat, outDir: string, existing: set<string>, r: Raster)
    ensures r.RasterFailed? ==>
              FileEvents(file, i, n, outDir, existing, r) == [OperationError(ExceptionText(r.reason))]
    ensures r.Rasterized? && !Contains(r.lbl, Sentinel) ==>
              FileEvents(file, i, n, outDir, existing, r) == Reported(i, n)
    ensures r.Rasterized? && Contains(r.lbl, Sentinel) ==>
              && GrayToColorMask(RemapGrid(r.lbl)).Some?
              && FileEvents(file, i, n, outDir, existing, r) ==
                   ExportEvents(file, i, n, outDir, existing, GrayToColorMask(RemapGrid(r.lbl)).value)
  {
    if r.Rasterized? {
      SentinelGate(r.lbl);
      RemapThenColor(r.lbl);
    }
  }

  /** The sentinel gate, closed: a file whose labels hold no class `"5"` only reports progress. */
  lemma GateClosed(file: string, i: nat, n: nat, outDir: string, existing: set<string>, lbl: Grid)
    requires !Contains(lbl, Sentinel)
    ensures FileEvents(file, i, n, outDir, existing, Rasterized(lbl)) == Reported(i, n)
  {
    FileEventsCases(file, i, n, outDir, existing, Rasterized(lbl));
  }

  /**
    The sentinel gate, open: a file whose labels hold class `"5"` has its
    colour mask written first, each pixel the palette row of its remapped
    label; the palette never fails on a remapped mask.
  */
  lemma GateOpenWritesMask(file: string, i: nat, n: nat, outDir: string, existing: set<string>, lbl: Grid)
    requires Contains(lbl, Sentinel)
    ensures
      var ev := FileEvents(file, i, n, outDir, existing, Rasterized(lbl));
      && ev != [] && ev[0].MaskWritten? && ev[0].path == MaskPath(outDir, file)
      && |ev[0].image| == |lbl|
      && (forall a :: 0 <= a < |lbl| ==> |ev[0].image[a]| == |lbl[a]|)
      && (forall a, b :: 0 <= a < |lbl| && 0 <= b < |lbl[a]| ==>
            ev[0].image[a][b] == Colormap[RemapValue(lbl[a][b])])
      && ev == ExportEvents(file, i, n, outDir, existing, ev[0].image)
  {
    FileEventsCases(file, i, n, outDir, existing, Rasterized(lbl));
    RemapThenColor(lbl);
    ExportStartsWithMask(file, i, n, outDir, existing, GrayToColorMask(RemapGrid(lbl)).value);
  }

  /**
    After the mask, the raster and then the annotation are copied into the
    output directory; a copy whose source does not exist raises, and the
    mask already written stays.
  */
  lemma ExportCopies(file: string, i: nat, n: nat, outDir: string, existing: set<string>, image: seq<seq<Bgr>>)
    ensures
      var ev := ExportEvents(file, i, n, outDir, existing, image);
      var companion := CompanionPath(file, existing);
      var written := MaskWritten(MaskPath(outDir, file), image);
      && (companion !in existing ==> ev == [written, OperationError(NoSuchFile(companion))])
      && (companion in existing && file !in existing ==>
            ev == [written, FileCopied(companion, Join(outDir, Basename(companion))),
                   OperationError(NoSuchFile(file))])
      && (companion in existing && file in existing ==>
            ev == [written, FileCopied(companion, Join(outDir, Basename(companion))),
                   FileCopied(file, Join(outDir, Basename(file)))] + Reported(i, n))
  {
    var ev := ExportEvents(file, i, n, outDir, existing, image);
    var companion := CompanionPath(file, existing);
    var written := [MaskWritten(MaskPath(outDir, file), image)];
    if companion in existing {
      var copied := written + [FileCopied(companion, Join(outDir, Basename(companion)))];
      if file in existing {
        assert ev == copied + [FileCopied(file, Join(outDir, Basename(file)))] + Reported(i, n);
      } else {
        assert ev == copied + [OperationError(NoSuchFile(file))];
      }
    } else {
      assert ev == written + [OperationError(NoSuchFile(companion))];
    }
  }

  /** An export writes the mask before anything else. */
  lemma ExportStartsWithMask(file: string, i: nat, n: nat, outDir: string, existing: set<string>, image: seq<seq<Bgr>>)
    ensures
      var ev := ExportEvents(file, i, n, outDir, existing, image);
      ev != [] && ev[0] == MaskWritten(MaskPath(outDir, file), image)
  {
    ExportCopies(file, i, n, outDir, existing, image);
  }

  lemma ExportNoFinish(file: string, i: nat, n: nat, outDir: string, existing: set<string>, image: seq<seq<Bgr>>)
    ensures NoFinish(ExportEvents(file, i, n, outDir, existing, image))
  {
    ExportCopies(file, i, n, outDir, existing, image);
  }

  lemma ExportNoPaletteError(file: string, i: nat, n: nat, outDir: string, existing: set<string>, image: seq<seq<Bgr>>)
    ensures
      var ev := ExportEvents(file, i, n, outDir, existing, image);
      forall k :: 0 <= k < |ev| ==> ev[k] != OperationError(PaletteIndexError)
  {
    ExportCopies(file, i, n, outDir, existing, image);
  }

  /** An export reports progress, last, exactly when both copies find their source. */
  lemma ExportProgress(file: string, i: nat, n: nat, outDir: string, existing: set<string>, image: seq<seq<Bgr>>)
    ensures
      var ev := ExportEvents(file, i, n, outDir, existing, image);
      var ok := CompanionPath(file, existing) in existing && file in existing;
      && (HasProgress(ev) <==> ok)
      && (ok ==> |ev| >= 2 && ev[|ev| - 2..] == Reported(i, n) && !HasProgress(ev[..|ev| - 2]))
      && (!ok ==> ev != [] && ev[|ev| - 1].OperationError?)
  {
    ExportCopies(file, i, n, outDir, existing, image);
    var ev := ExportEvents(file, i, n, outDir, existing, image);
    var companion := CompanionPath(file, existing);
    if companion in existing && file in existing {
      assert ev[..|ev| - 2] ==
        [MaskWritten(MaskPath(outDir, file), image),
         FileCopied(companion, Join(outDir, Basename(companion))),
         FileCopied(file, Join(outDir, Basename(file)))];
      assert ev[|ev| - 1].ProgressUpdated?;
    }
  }

  /** A loaded file never reports a palette error: every remapped value has a palette row. */
  lemma NoPaletteError(file: string, i: nat, n: nat, outDir: string, existing: set<string>, r: Raster)
    ensures
      var ev := FileEvents(file, i, n, outDir, existing, r);
      forall k :: 0 <= k < |ev| ==> ev[k] != OperationError(PaletteIndexError)
  {
    FileEventsCases(file, i, n, outDir, existing, r);
    if r.Rasterized? && Contains(r.lbl, Sentinel) {
      ExportNoPaletteError(file, i, n, outDir, existing, GrayToColorMask(RemapGrid(r.lbl)).value);
    }
  }

  /**
    The mask of annotation file `dir/name.json` is written as
    `name_mask.png` in the output directory.
  */
  lemma MaskLandsInOutput(dataDir: string, dir: string, name: string)
    requires '/' !in name
    requires exists j :: 0 <= j < |name| && name[j] != '.'
    ensures Basename(MaskPath(OutputPath(dataDir), dir + "/" + name + ".json")) == name + MaskEnding
  {
    MaskFileName(OutputPath(dataDir), dir, name);
  }
}
