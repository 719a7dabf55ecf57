# LabelmeToMask conversion core, in Dafny

This project models the conversion core of `LabelmeToMaskApp.py`: the worker that turns a directory of labelme annotation files (`*.json`) into colour masks for a segmentation dataset. For each annotation file, in sorted order, the worker:

- takes the label grid that labelme rasterises from the polygons;
- remaps its class indices with six masked assignments;
- exports the file only if the remapped grid contains the sentinel value 5: it expands the grid through a six-row palette into a three-channel image, writes it as `<base>_mask.png` in `<input>/dataset`, and copies the paired raster and the annotation next to the mask;
- reports the elapsed time and progress for every file whose inner `try` does not raise, exported or not.

A cooperative stop flag is tested before each file. An exception inside a file's inner `try` is reported and the loop goes on. An exception while loading a file escapes, and `run()` turns it into one error event. The finished event comes only after a complete loop.

Modules:

- `Optional`: the `Option` type.
- `Paths`: `str.replace`, the paired-raster suffix choice, POSIX `basename`/`splitext`/`join`, and the mask file name.
- `FileOrder`: Python's string order and `sorted` on the listing.
- `ColorMask`: `gray_to_color_mask`, including NumPy's negative indices and its `IndexError`.
- `LabelRemap`: the remap table, one cell under the six assignments, the remap as array code (`array2`, masked assignments), and the sentinel gate.
- `Worker`: the events of one file, the loop's exit, and the run's whole trace. It also holds the class `WorkerThread`, with the fields `isRunning` and `trace` and the methods `Run`, `LabelmeToMask`, `ConvertAll`, `VisitFile` and `Stop`, each proved against those trace functions.
- `WorkerProperties`: what a run promises, proved over the trace functions.

What the worker does is recorded as a trace of `Event`s: its signals and its file-system effects, in order. What it cannot see into is an input:

- the glob listing;
- the set of existing paths;
- for each annotation file, the outcome of loading it and of rasterising its shapes;
- the iterations before which another thread called `stop()`.

## Behaviour worth knowing

- **Missing raster.** If neither the `png` nor the `tif` raster exists, the suffix becomes `""` and the mask is still written. The path then copied is `file.replace('json', '')`, so `d/a.json` gives `d/a.`. That copy raises when `d/a.` does not exist, which is the condition `ExportEvents` tests. The exception is reported as the file's error, and the file gets no progress report.
- **Load failures.** Loading (lines 81-82) happens outside the inner `try`. A load failure therefore ends the whole run with one error event and no finished event.
- **Label indices outside the table.** These are not an error: they keep the 0 of `np.zeros_like`.
- **Progress value.** Progress is `int(...)` of a float, so it is truncated, not rounded.

## Model

| member | source | states |
|---|---|---|
| Paths.Replace | LabelmeToMaskApp.py:76 | defines `str.replace`: scanning left to right, every non-overlapping occurrence of the pattern becomes the replacement |
| Paths.ReplaceAbsent | LabelmeToMaskApp.py:76 | `str.replace` leaves a string without the pattern unchanged |
| Paths.ReplaceKeepsFirst | LabelmeToMaskApp.py:76 | replacement leaves alone every leading character at which no occurrence starts |
| Paths.ReplaceKeepsPrefix | LabelmeToMaskApp.py:76 | replacement leaves alone a prefix in which no occurrence starts |
| Paths.ReplaceExtension | LabelmeToMaskApp.py:76 | for `p.json` with no other `json`, the paired path is `p.<suffix>` |
| Paths.ReplaceRewritesDirectories | LabelmeToMaskApp.py:104-105 | every `json` is rewritten, also one in a directory name: `json/a.json` pairs with `png/a.png` |
| Paths.FirstExisting | LabelmeToMaskApp.py:76 | the index found is the first candidate whose paired path exists; none means no candidate's path exists |
| Paths.SuffixChoice | LabelmeToMaskApp.py:19-76 | the suffix is `png` iff the png path exists, `tif` iff only the tif path exists, `""` iff neither exists |
| Paths.PairedPath | LabelmeToMaskApp.py:76 | defines the raster path sought for a suffix: `file.replace('json', sfx)` |
| Paths.SelectSuffix | LabelmeToMaskApp.py:19-76 | defines the chosen suffix: the first of `png`, `tif` whose paired path exists, else `""` |
| Paths.CompanionPath | LabelmeToMaskApp.py:76-104 | defines the raster copied next to the mask: the annotation path with `json` replaced by the chosen suffix |
| Paths.Basename | LabelmeToMaskApp.py:77 | the basename contains no slash |
| Paths.BasenameShape | LabelmeToMaskApp.py:77 | the basename is an ending of the path that is all of it or follows a slash |
| Paths.BasenameUnique | LabelmeToMaskApp.py:77 | any slash-free ending that is all of the path or follows a slash is the basename |
| Paths.BasenameAfterSlash | LabelmeToMaskApp.py:77 | the basename of `dir/name` is `name`, whatever the directory |
| Paths.LastIndexOf | LabelmeToMaskApp.py:77 | the index is -1 or holds the character, and no later index holds it |
| Paths.Stem | LabelmeToMaskApp.py:77 | `splitext`'s root: a prefix of the name that is the whole name iff no dot follows a non-dot; otherwise it stops at the last dot, which has no dot after it |
| Paths.BaseName | LabelmeToMaskApp.py:77 | the base name has no directory part |
| Paths.BaseNameOfJsonFile | LabelmeToMaskApp.py:77 | the base name of `dir/name.json` is `name`, dots inside `name` included, unless `name` is dots only |
| Paths.Join | LabelmeToMaskApp.py:78-106 | defines POSIX `os.path.join` of two parts: an absolute second part wins, otherwise a slash is put between them unless the first part is empty or already ends in one |
| Paths.JoinBasename | LabelmeToMaskApp.py:105-106 | joining a plain name onto the output directory gives a path whose basename is that name |
| Paths.MaskPath | LabelmeToMaskApp.py:77-79 | defines the mask path: `<base>_mask.png` joined onto the output directory |
| Paths.MaskPathBasename | LabelmeToMaskApp.py:77-79 | for every annotation file, the mask's file name is its base name followed by `_mask.png` |
| Paths.MaskFileName | LabelmeToMaskApp.py:79 | the mask of `dir/name.json` has the file name `name_mask.png`, dots inside `name` included |
| FileOrder.Le | LabelmeToMaskApp.py:69 | defines Python's `<=` on strings: lexicographic by code point, a prefix before its extensions |
| FileOrder.LeReflexive | LabelmeToMaskApp.py:69 | the string order is reflexive |
| FileOrder.LeTotal | LabelmeToMaskApp.py:69 | the string order is total |
| FileOrder.LeTransitive | LabelmeToMaskApp.py:69 | the string order is transitive |
| FileOrder.LeAntisymmetric | LabelmeToMaskApp.py:69 | the string order is antisymmetric |
| FileOrder.Insert | LabelmeToMaskApp.py:69 | insertion makes the list one longer |
| FileOrder.InsertContents | LabelmeToMaskApp.py:69 | insertion adds the path once and keeps all others |
| FileOrder.InsertSorted | LabelmeToMaskApp.py:69 | inserting into a sorted list keeps it sorted |
| FileOrder.SortPaths | LabelmeToMaskApp.py:69 | sorting keeps the length of the listing |
| FileOrder.SortPathsContents | LabelmeToMaskApp.py:69 | sorting is a permutation of the listing |
| FileOrder.SortPathsSorted | LabelmeToMaskApp.py:69 | the sorted listing is ascending |
| FileOrder.SortedUnique | LabelmeToMaskApp.py:69 | two sorted lists with the same paths are equal |
| FileOrder.VisitOrderIgnoresListingOrder | LabelmeToMaskApp.py:69 | listings holding the same paths in any order give the same visiting order |
| ColorMask.PaletteRow | LabelmeToMaskApp.py:32 | a grey value selects a row iff it is in -6..5; 0..5 select their own row and negatives count from the end |
| ColorMask.GrayToColorMask | LabelmeToMaskApp.py:22-35 | the image exists iff every grey value indexes the palette; it keeps height and row widths, and each pixel is its value's palette row |
| ColorMask.ColorOfInRangeMask | LabelmeToMaskApp.py:23-32 | a mask of values 0..5 always converts, each pixel becoming row `v` of the palette |
| LabelRemap.RemapValue | LabelmeToMaskApp.py:95-100 | remapped values lie in 0..5; the result is 5 iff the label is 5; labels outside 0..5 give 0 |
| LabelRemap.Assigned | LabelmeToMaskApp.py:95-100 | defines one cell under a list of masked assignments `mask[lbl == src] = dst`, applied in order |
| LabelRemap.AssignedFindsEntry | LabelmeToMaskApp.py:95-100 | with distinct sources, a cell ends with the target of the one assignment testing its label, or keeps its start value |
| LabelRemap.AssignmentsMatchTable | LabelmeToMaskApp.py:88-100 | the six assignments in source order, from zero, give `0->2, 1->0, 2->4, 3->3, 4->1, 5->5`, else 0 |
| LabelRemap.TableEntries | LabelmeToMaskApp.py:95-100 | the table holds each source 0..5 exactly once, paired with its remapped value |
| LabelRemap.RemapOrderIndependent | LabelmeToMaskApp.py:95-100 | any reordering of the six assignments gives the same cell value |
| LabelRemap.GumLooksLikeBackground | LabelmeToMaskApp.py:67 | `gum` pixels and unlabelled pixels both become 2 |
| LabelRemap.OnlyClassFiveIsSentinel | LabelmeToMaskApp.py:67 | among the class names, only `"5"` remaps to the sentinel |
| LabelRemap.RemapGrid | LabelmeToMaskApp.py:88-100 | the remapped grid has the label grid's height and width |
| LabelRemap.Contains | LabelmeToMaskApp.py:101 | defines NumPy's `v in mask` on a grid: some cell equals `v` |
| LabelRemap.SentinelGate | LabelmeToMaskApp.py:101 | `5 in mask` after the remap iff the label grid contains 5 |
| LabelRemap.RemapThenColor | LabelmeToMaskApp.py:101-102 | colouring a remapped grid never fails; each pixel is the palette row of its remapped label, and sentinel pixels are (255, 129, 64) |
| LabelRemap.Rows | LabelmeToMaskApp.py:88 | the cells of an array, row by row, with its dimensions |
| LabelRemap.NewLabelArray | LabelmeToMaskApp.py:84-88 | a new array holding the label grid |
| LabelRemap.MaskedAssign | LabelmeToMaskApp.py:95 | `mask[lbl == src] = dst` sets exactly the cells whose label is `src` |
| LabelRemap.RemapLabels | LabelmeToMaskApp.py:88-100 | a new array of `lbl`'s shape whose cells are the remapped labels |
| Worker.OutputPath | LabelmeToMaskApp.py:60 | defines the output directory: `os.path.join(input_path, 'dataset')` |
| Worker.Reported | LabelmeToMaskApp.py:110-112 | defines the closing signals of a file that went through: the runtime update, then progress `i + 1` of `n` |
| Worker.FileEvents | LabelmeToMaskApp.py:83-115 | the inner `try` of one loaded file ends either with an error event or with its progress report `i + 1` of `n`, and is never empty |
| Worker.ExportEvents | LabelmeToMaskApp.py:101-112 | defines the export of a file that passed the gate: mask write, raster copy, annotation copy, report; a missing copy source raises and ends it |
| Worker.StepEvents | LabelmeToMaskApp.py:81-115 | a file the loop enters contributes no events iff loading it fails |
| Worker.LoopExit | LabelmeToMaskApp.py:73-82 | defines how the loop ends from index `i`: flag tested first, then the load, whose exception leaves the loop |
| Worker.LoopEvents | LabelmeToMaskApp.py:73-116 | defines the loop's events: those of every file it entered, in order |
| Worker.Header | LabelmeToMaskApp.py:60-71 | defines the events before the loop: log lines, removal of an existing output directory, making it |
| Worker.Closing | LabelmeToMaskApp.py:117-118 | defines what follows the loop: the finished event iff the loop completed |
| Worker.Escaped | LabelmeToMaskApp.py:56-57 | defines what `run()` adds: one error event iff an exception left `labelme_to_mask` |
| Worker.RunEvents | LabelmeToMaskApp.py:53-118 | defines the whole trace of `run()`: header, loop events, finished event after a complete loop, one error event for an escaping exception |
| Worker.Steps | LabelmeToMaskApp.py:73-116 | one event list per file entered |
| Worker.RunExit | LabelmeToMaskApp.py:69-82 | the loop stops at a file index within the listing |
| Worker.LoopExitIndexInRange | LabelmeToMaskApp.py:73-82 | the loop entered at `i` stops between `i` and the end |
| Worker.StepsSnoc | LabelmeToMaskApp.py:73-116 | the events of `n + 1` files are those of `n` files, then file `n`'s |
| Worker.WorkerThread.constructor | LabelmeToMaskApp.py:47-51 | a new worker is running, with an empty trace |
| Worker.WorkerThread.Stop | LabelmeToMaskApp.py:120-121 | `stop()` clears the flag |
| Worker.WorkerThread.Emit | LabelmeToMaskApp.py:38-43 | a signal is appended to the trace |
| Worker.WorkerThread.Run | LabelmeToMaskApp.py:53-57 | the trace grows by exactly the run's events, with an escaping exception as one error event; the flag stays set iff it was set and the loop did not stop |
| Worker.WorkerThread.LabelmeToMask | LabelmeToMaskApp.py:59-118 | header, loop events and the finished event after a complete loop; the escaping exception is returned |
| Worker.WorkerThread.PrepareOutput | LabelmeToMaskApp.py:60-71 | the log lines, the removal of an existing output directory, and making it |
| Worker.WorkerThread.ConvertAll | LabelmeToMaskApp.py:73-116 | the loop's exit is `LoopExit`, and the trace grows by the events of every file entered |
| Worker.WorkerThread.VisitFile | LabelmeToMaskApp.py:74-116 | one iteration either ends the loop as `LoopExit` says, adding nothing, or adds that file's events and goes on |
| Worker.ConvertFile | LabelmeToMaskApp.py:83-115 | the inner `try` on arrays gives exactly the file's events |
| WorkerProperties.LoopExitSpec | LabelmeToMaskApp.py:73-82 | the loop leaves at the first file that meets a cleared flag or fails to load, or completes when none does; the exit kind says which |
| WorkerProperties.ExitIgnoresRasterOutcomes | LabelmeToMaskApp.py:83-115 | inner-block outcomes never change where the loop ends |
| WorkerProperties.InnerErrorContinues | LabelmeToMaskApp.py:114-115 | a raising rasterisation gives one error event and the loop goes on to the next file |
| WorkerProperties.FileEventsNoFinish | LabelmeToMaskApp.py:83-115 | a file never emits the finished event |
| WorkerProperties.FlattenNoFinish | LabelmeToMaskApp.py:73-116 | event lists without the finished event concatenate to one without it |
| WorkerProperties.LoopEventsNoFinish | LabelmeToMaskApp.py:73-116 | the loop never emits the finished event |
| WorkerProperties.HeaderNoFinish | LabelmeToMaskApp.py:60-71 | the lines before the loop contain no finished event |
| WorkerProperties.ClosingFinishesOnce | LabelmeToMaskApp.py:117-118 | after the loop, the finished event is added exactly once, as the last event, iff the loop completed |
| WorkerProperties.FinishedExactlyOnce | LabelmeToMaskApp.py:117-118 | a completed run ends with the finished event, which occurs nowhere else; any other run has none |
| WorkerProperties.StopEndsRunEarly | LabelmeToMaskApp.py:74-75 | a stop before file `k` means no file from `k` on is entered and no finished event |
| WorkerProperties.StoppedRunEndsQuietly | LabelmeToMaskApp.py:74-75 | a stopped run's trace is the header and the entered files' events, nothing after |
| WorkerProperties.StoppedBeforeStart | LabelmeToMaskApp.py:73-75 | a worker stopped before `run()` enters no file; with an empty listing it completes |
| WorkerProperties.LoadFailureEndsRun | LabelmeToMaskApp.py:53-57 | a load failure ends the run with exactly one error event after the files before it, and no finished event |
| WorkerProperties.RunIgnoresListingOrder | LabelmeToMaskApp.py:69 | the run's exit and trace depend only on which files are listed, not their order |
| WorkerProperties.HeaderRecreatesOutput | LabelmeToMaskApp.py:63-66 | the output directory is removed iff it exists, and is always made before the loop |
| WorkerProperties.ProgressOnlyOnSuccess | LabelmeToMaskApp.py:101-115 | a file reports progress iff it goes through; the report is last and says `i + 1` of `n`; otherwise an error ends its events |
| WorkerProperties.LastProgressIsWholeBatch | LabelmeToMaskApp.py:112-118 | when the run completes and the last file goes through, the last report is `n` of `n` (100%), followed only by the finished event |
| WorkerProperties.CompletedLoopEndsWithProgress | LabelmeToMaskApp.py:110-112 | a complete loop whose last file goes through ends with that file's report |
| WorkerProperties.SucceedingStepEndsWithProgress | LabelmeToMaskApp.py:110-112 | a loaded file that goes through ends with its progress report |
| WorkerProperties.FileEventsCases | LabelmeToMaskApp.py:84-106 | a raising rasterisation gives one error; a grid without the sentinel only reports; with it, the file is exported with the colour mask of its remapped grid |
| WorkerProperties.GateClosed | LabelmeToMaskApp.py:101-112 | with no sentinel, nothing is written or copied, and the file is only reported |
| WorkerProperties.GateOpenWritesMask | LabelmeToMaskApp.py:101-103 | with the sentinel, the mask is written first, to `<base>_mask.png`, with `lbl`'s dimensions and each pixel the palette row of its remapped label |
| WorkerProperties.ExportCopies | LabelmeToMaskApp.py:103-106 | after the mask, the raster and then the annotation are copied under their basenames; a missing source raises and ends the block |
| WorkerProperties.ExportStartsWithMask | LabelmeToMaskApp.py:103 | an export writes the mask before anything else |
| WorkerProperties.ExportNoFinish | LabelmeToMaskApp.py:101-115 | an export never emits the finished event |
| WorkerProperties.ExportNoPaletteError | LabelmeToMaskApp.py:102-106 | an export reports no palette error |
| WorkerProperties.ExportProgress | LabelmeToMaskApp.py:104-112 | an export reports progress, last, iff both copied files exist; otherwise an error ends it |
| WorkerProperties.NoPaletteError | LabelmeToMaskApp.py:32 | a loaded file never reports a palette `IndexError` |
| WorkerProperties.MaskLandsInOutput | LabelmeToMaskApp.py:79 | the mask of `dir/name.json` is written as `name_mask.png` in the output directory |

## Left out

- The labelme calls `LabelFile`, `img_data_to_arr` and `shapes_to_label` (lines 81-87) are foreign code. The model takes each file's load outcome and label grid as inputs (`Env.load`).
- File-system I/O is split in two. `rmtree`, `makedirs`, `imencode(...).tofile` and `shutil.copy` are recorded as the events `RemovedTree`, `MadeDirs`, `MaskWritten` and `FileCopied`. The `glob` result and `os.path.exists` are inputs: `Env.listing` and the fixed set `Env.existing`. The run's own removals, writes and copies do not update that set.
- Failures of `rmtree`, `makedirs` and `imencode`/`tofile` are not modelled. Neither are `shutil.copy` failures other than a missing source.
- Exception texts (`str(e)`) are modelled as structured `ErrorText` values, and log lines as structured `LogLine` values, not as formatted strings.
- `QThread`, the signals mechanism and the cross-thread `stop()` are concurrency. `stop()` calls are modelled as the set of iterations before whose flag check they land. A `stop()` that lands after the last flag check, during the last file or after the loop, has no index in that set. In that case `Run` promises the flag still set, where the real `_is_running` would be `False`; the trace is the same either way.
- Elapsed time (`time.time`) is left out: `RuntimeUpdated` and the finished event carry no time.
- The float progress percentage `int((i + 1) / n * 100)` (line 112) is modelled as the pair `i + 1` of `n`. Only the final `n` of `n`, which is exactly 100, is stated.
- Paths follow POSIX `os.path` rules only, and `os.path.join` is modelled for two components.
- The constructor's default `data_dir=None` (line 47) is not modelled: the worker always gets a directory string. With `None`, `os.path.join` at line 60 raises `TypeError`, which `run()` would report as one error event before any log line.
- `out_img_file` (line 78) is computed but never used, so it is not modelled.
- The window class `LabelmeToMaskWindow`, the config-file load and save, `draw_icon.py` and `main.py` are not part of this model.
