# Top10NL downloader — a verified model of the plugin's sequential core

The Top10NL Downloader is a QGIS plugin. It downloads selected layers
("features") of the Dutch Top10NL topographic map from the PDOK OGC API
Features service into a GeoPackage, and offers to add the downloaded layers
to the map in a group named after the GeoPackage. This project models the
plugin's sequential decisions in Dafny and proves what they guarantee:

- **Catalog** — the feature loader turns the `/collections` response into
  the sorted list of collection ids (`Top10NLFeaturesLoader.run`).
- **Plugin** — adopting a loaded list (`on_features_loaded`), deriving the
  default log path (`on_output_file_changed`), and the checks
  `start_download` makes before it creates a download task.
- **Download** — the download task's `run`:
  - one conversion per requested feature, with a cancel poll at the top of every iteration;
  - blank names are skipped, and every other name gets a progress report and one conversion attempt whose error is caught;
  - then the final progress report of 100;
  - in append mode, a deduplication pass over every requested layer.
- **LayerGroup** — the download task's `finished`:
  - which requested layers are new to the group, compared by source against the children the group had before the batch;
  - where each new layer goes: one past the last layer with a smaller geometry code, so points come above lines and lines above polygons.
- **Strings**, **Paths**, **Options** — the Python behaviour these rely on:
  - `str.strip` with Python 3's whitespace set;
  - code-point string order;
  - POSIX `os.path.splitext` and `os.path.basename`;
  - the layer source `<output>|layername=<feature>`;
  - the group name.

The GDAL and QGIS algorithms are oracles passed in as function parameters:
- `convertOk` stands for `gdal:convertformat`;
- `layerOpens` for `QgsVectorLayer.isValid`;
- `dedupOk` for deduplicate-and-save;
- `open` for opening a layer in `finished`;
- `isCanceled(i)` for the cancel poll of iteration `i`.

Log lines are a datatype with one constructor per logged event; it carries the feature name, not the wording. `RunStarted` stands for the whole header block (`top10nl_downloader.py:636-649`), `FeatureStarted` for a feature's opening lines (667-671), `DedupStarted` for line 696 and `RunFinished` for the closing block (739-742). The extent, processing-mode, time and separator lines inside these blocks, and the finish-time and separator lines after each feature (687-688), have no constructor of their own.

How a new layer is placed within its own geometry class follows from the scan, not from its comments:
- The comment at `top10nl_downloader.py:826` gives only the class order: points on top, lines in the middle, polygons at the bottom. The comment at line 831 speaks of a `break` that the loop does not contain.
- The scan at `top10nl_downloader.py:829-833` moves the index past an existing layer only when the new code is strictly greater. A new layer therefore goes *before* the existing layers of its class, and a batch of same-class layers ends up reversed.

`LayerGroup.SameClassBatchReversed` and `LayerGroup.MixedBatchExample`
state the consequence. In the example, the
group [point A, polygon B] with new layers [line C, point D] becomes
[D, A, C, B].

## Model

| member | source | states |
|---|---|---|
| Strings.StripSpec | top10nl_downloader.py:658 | `strip` leaves the infix between a blank prefix and a blank suffix, with no whitespace at either end; the result is empty exactly when the name is blank |
| Strings.TrimStartSpec | top10nl_downloader.py:658 | the leading-whitespace half of `strip` removes only whitespace and stops at the first non-blank character |
| Strings.TrimEndSpec | top10nl_downloader.py:658 | the trailing-whitespace half of `strip` removes only whitespace and stops at the last non-blank character |
| Strings.StripIdempotent | top10nl_downloader.py:797 | stripping an already stripped name changes nothing |
| Strings.NonBlankNames | top10nl_downloader.py:796-799 | the names a loop handles are never empty and no more numerous than the requested entries; each is the strip of some entry, and every entry whose strip is non-empty contributes its strip |
| Strings.NonBlankNamesAppend | top10nl_downloader.py:796-799 | the names of a concatenation of entry lists are the names of each part, in order |
| Strings.NonBlankNamesSingle | top10nl_downloader.py:797-799 | one entry contributes its strip, or nothing when the strip is empty |
| Paths.SplitExt | top10nl_downloader.py:342 | `splitext` splits the path into root and extension that concatenate back to it; the extension is empty or a dot followed by no dot or slash |
| Paths.SplitExtWhen | top10nl_downloader.py:342 | `splitext` splits exactly when a '.' of the final component has a non-dot character before it in that component, and then at the last '.'; otherwise the path stays whole |
| Paths.SplitExtExamples | top10nl_downloader.py:342 | ".gpkg" and "a.b/out" have no extension, and "out.gpkg" splits into "out" and ".gpkg" |
| Paths.SplitExtJoin | top10nl_downloader.py:342 | a root whose last component has a non-dot character, joined with an extension, splits back into exactly that root and extension |
| Paths.LogPathReplacesExtension | top10nl_downloader.py:342-343 | the log path is the output path with its extension replaced by `.log` |
| Paths.LogPathWithoutExtension | top10nl_downloader.py:350-351 | an output path with no dot after its last slash gets `.log` appended, whatever dots its directories hold |
| Paths.Basename | top10nl_downloader.py:771 | `basename` is the suffix of the path after its last slash and contains no slash |
| Paths.GroupNameOfFile | top10nl_downloader.py:771-772 | the group of `dir/file` is named `file (PDOK-OAPIF-download)` |
| Paths.LayerSourceInjective | top10nl_downloader.py:800 | for one output file, two feature names give the same layer source only if they are equal |
| Catalog.PresentIds | top10nl_downloader.py:48-51 | each id occurs as often as the collections carrying exactly that id |
| Catalog.SortIds | top10nl_downloader.py:54 | sorting yields a sorted permutation of the ids |
| Catalog.ExtractIds | top10nl_downloader.py:47-54 | the result is sorted, empty when the response has no collections list, and otherwise holds each present id exactly as often as the collections carry it |
| Catalog.SortedUnique | top10nl_downloader.py:54 | two sorted arrangements of the same ids are equal, so the result does not depend on the sorting algorithm |
| Catalog.ExtractIdsIsSortedPresentIds | top10nl_downloader.py:47-54 | any sorted list holding exactly the present ids is the extraction's result |
| Plugin.OnFeaturesLoaded | top10nl_downloader.py:271-274 | a non-empty loaded list replaces the offered features; an empty list leaves the state unchanged |
| Plugin.CatalogNeverEmptiesFeatures | top10nl_downloader.py:271-274 | whatever the catalog answers, a non-empty feature list stays non-empty, and is either kept or replaced by sorted ids |
| Plugin.NoIdsKeepsFeatures | top10nl_downloader.py:271-274 | a response with no collections list, or with no ids in it, leaves the state unchanged |
| Plugin.OnOutputFileChanged | top10nl_downloader.py:341-343 | editing the output path sets the default log to the path's `splitext` root plus `.log` and leaves the feature list unchanged |
| Plugin.OutputChangeSetsLog | top10nl_downloader.py:341-343 | editing the output path to `root + ext` sets the default log to `root + ".log"` |
| Plugin.StartDownload | top10nl_downloader.py:346-397 | a task starts exactly when the selection is non-empty and the extent has positive width and height; an empty selection is reported first, a bad extent second; a started request carries the dialog's values |
| Plugin.StartedRequestAgrees | top10nl_downloader.py:348-351 | a started task writes to the log path the dialog derives for the same output path, and its request meets the run's precondition |
| Download.StopIndex | top10nl_downloader.py:654-656 | the number of iterations completed is the first iteration whose cancel poll answers true, or all of them |
| Download.PercentBelowHundred | top10nl_downloader.py:663 | a progress value reported inside the loop lies in 0..99 |
| Download.PercentMonotone | top10nl_downloader.py:663 | a later iteration never reports a smaller percentage |
| Download.LoopLinesNames | top10nl_downloader.py:654-688 | the loop announces, and logs an outcome for, exactly the stripped non-blank names in order, whatever each conversion returns, and writes no deduplication line |
| Download.LoopLinesFaithful | top10nl_downloader.py:679-684 | each loop line is a conversion line, and each logged outcome is the convert oracle's answer for that name |
| Download.LoopReportsBounded | top10nl_downloader.py:658-665 | there is one progress report per non-blank name; each lies in 0..99 and reports never decrease |
| Download.HandleFeature | top10nl_downloader.py:657-688 | one iteration on a blank name reports and logs nothing; on any other name it reports the percentage of its index once and logs the announcement followed by the convert oracle's outcome |
| Download.FeatureLinesNames | top10nl_downloader.py:666-684 | one iteration announces a non-blank name once and reports one outcome for it, and writes no deduplication line |
| Download.ConvertAll | top10nl_downloader.py:654-688 | the loop stops early exactly when a cancel poll answers true; its log and progress are those of the features before the first cancelled iteration, so no later feature is reached |
| Download.DedupLinesNames | top10nl_downloader.py:695-736 | the deduplication pass reports on every requested name, unstripped and in order, including names whose layer does not open |
| Download.DedupLinesFaithful | top10nl_downloader.py:697-736 | each deduplication line agrees with the open and deduplicate oracles for the layer source built from the raw name |
| Download.DedupAll | top10nl_downloader.py:695-736 | the pass's loop writes one outcome line per requested name, in order, whatever the oracles answer |
| Download.CompletedLogFacts | top10nl_downloader.py:654-744 | a completed run's log names the converted features and, only in append mode, every requested name for deduplication; it agrees with all oracles and ends with the end marker |
| Download.Run | top10nl_downloader.py:632-749 | the download task's steps (header, feature loop, final report, deduplication pass in append mode, end marker) produce the outcome `Download.RunOutcome` describes, which the lemmas below characterise |
| Download.RunStatus | top10nl_downloader.py:632-749 | a run fails exactly when its header cannot be written, and then has no progress and only the failure line; otherwise it completes exactly when no cancel poll answers true; the boolean `run` returns (`Outcome.Result`, true only at line 744) is by definition true exactly on completion |
| Download.RunConvertsBeforeStop | top10nl_downloader.py:654-688 | a run announces and converts exactly the stripped non-blank names before the first cancelled iteration, whatever each conversion returns |
| Download.RunProgress | top10nl_downloader.py:661-692 | progress holds one report per announced feature, each in 0..99, never decreasing, followed by a single 100 exactly when the run completes |
| Download.RunDeduplicates | top10nl_downloader.py:694-744 | the deduplication pass runs exactly when the run completes in append mode, and then reports on every requested name; the end marker is logged exactly on completion |
| Download.RunLogFaithful | top10nl_downloader.py:632-749 | every line of a run's log agrees with the oracle answers it records |
| LayerGroup.InsertIndex | top10nl_downloader.py:829-833 | the insertion index is at most the list length; the entry just before it has a strictly smaller code, and every entry from it on has a code at least the new one |
| LayerGroup.InsertIndexUnique | top10nl_downloader.py:829-833 | an index with those two properties is the one the scan finds |
| LayerGroup.InsertLayer | top10nl_downloader.py:829-837 | one insertion adds exactly the new entry at the index and keeps every other entry in relative order |
| LayerGroup.InsertSortedPartition | top10nl_downloader.py:829-833 | in a geometry-sorted group, the index splits the entries with smaller codes from the rest |
| LayerGroup.InsertKeepsSorted | top10nl_downloader.py:825-837 | inserting into a group ordered points, lines, polygons keeps it ordered |
| LayerGroup.InsertMatchesTextbook | top10nl_downloader.py:829-837 | on a sorted group the code's insertion is "before the first entry of the same or a later class" |
| LayerGroup.InsertAll | top10nl_downloader.py:827-837 | inserting a batch adds exactly its entries, adds nothing else, and keeps a sorted group sorted |
| LayerGroup.SameClassBatchReversed | top10nl_downloader.py:829-837 | two new layers of the same class end up in reverse order at the scan's index, the second directly above the first; on a sorted group that index is in front of their class |
| LayerGroup.MixedBatchExample | top10nl_downloader.py:829-837 | [point A, polygon B] with the batch [line C, point D] becomes [D, A, C, B] |
| LayerGroup.NewLayers | top10nl_downloader.py:796-817 | every new layer opened, comes from a requested name, and had no same-source child in the group before the batch |
| LayerGroup.NewLayersComplete | top10nl_downloader.py:796-817 | every requested name whose layer opens and is not yet in the group becomes a new layer |
| LayerGroup.NewLayersKeepsRepeats | top10nl_downloader.py:806-815 | new layers are not compared with each other, so repeats in the request are all kept |
| LayerGroup.NewLayersNoneWhenPresent | top10nl_downloader.py:806-817 | names whose layers are all in the group already add nothing |
| LayerGroup.Finished | top10nl_downloader.py:751-837 | a failed run or a "No" reply changes nothing. Otherwise only the group named after the output file changes; it is created when missing, grows by exactly the new layers, and stays geometry-sorted if it was. |
| LayerGroup.RepeatedFeatureAddedTwice | top10nl_downloader.py:796-817 | a feature requested twice for a new group is added twice |
| LayerGroup.ReattachLeavesGroupUnchanged | top10nl_downloader.py:796-837 | loading features whose layers the group already holds leaves the layer tree unchanged |

## Left out

- The network fetch, JSON decoding and the 30 s timeout of the catalog loader (lines 40-44, 64-77) are I/O. The response is reduced to an optional list of collections, each with an optional string `id`. Non-string ids are not modelled.
- The fallback feature list and the error handler `on_features_error` leave the list as it is. The model takes the current list as given.
- The GDAL/QGIS algorithms and the ogr2ogr option string (lines 681, 705-730) are foreign. They are the oracles `convertOk`, `layerOpens`, `dedupOk` and `open`.
- Canvas extent, CRS transformation and float coordinates (lines 129-167) are not modelled. `QgsRectangle.isEmpty` is reduced to "width or height not positive", which ignores its null-rectangle and tolerance cases.
- Download.Percent: Python computes progress as `int((i / total) * 100)` in floating point. The model uses the integer `(i * 100) / total`, which can be one more than Python's value (29 against 28 for i = 29, total = 100); floating point is not modelled.
- Download.HandleFeature: the progress value it reports is `Download.Percent`, so it inherits that integer stand-in rather than Python's floating-point value.
- Download.LoopReportsBounded: because of the integer stand-in, it claims only what holds of both formulas: bounds, monotonicity and the count of reports.
- The dialog, message bars, `QMessageBox`, toolbar actions and translations are UI. The reply to "add the layers?" is a parameter, and a present `iface` is assumed.
- Thread and task scheduling, signals, the `isRunning` guard of `refresh_features` and `triggerRepaint` refreshes are not modelled.
- Download.LogLine: the extent, processing-mode, time and separator lines of the log (lines 637-641, 644-649, 668, 671, 687-688, 739-740 and 742) are not modelled as lines of their own; each block is one typed line.
- Timestamps, clock readings and log-file writes (lines 616-641) are not modelled. The log is a sequence of typed lines, and "the header can be written" is the one failure of `run`'s outer handler that the model covers.
- Download.Run: other unexpected exceptions that could reach the outer handler of `run` are not modelled.
- LayerGroup.NewLayers: a new entry's source is taken to be the string `<output>|layername=<name>` it was opened with, that is, `QgsVectorLayer.source()` is assumed to return its constructor string unchanged; the code also compares `dataSourceUri()` (line 809), which the model keeps as a separate field.
- LayerGroup.Finished: every child of the group is taken to be a layer. The code collects only layer children into its working list but inserts by child index, so the two agree only under this assumption.
- LayerGroup.Finished: the layer tree root is a map from group name to layer children. Where a new group goes among the root's children (index 0) and the nested-group search of `findGroup` are not modelled. The multiset and sortedness of the group are stated. The positions are those of `LayerGroup.InsertLayer` applied to each new layer in request order, which is how `LayerGroup.InsertAll` is defined; `LayerGroup.InsertAll`'s own contract does not state positions.
- Paths: `os.path` is modelled with POSIX semantics (`/` separator). The Windows `ntpath` rules are not modelled.
