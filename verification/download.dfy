/** The background download task's `run`: one conversion per requested
    feature with cooperative cancellation, progress reports and per-feature
    error isolation, then, in append mode, a deduplication pass over every
    layer. The GDAL/QGIS algorithms are oracles; clock readings and the
    wording of log lines are not modelled. */
module Download {
  import opened Strings
  import opened Paths

  /** The download extent in EPSG:28992 coordinates. */
  datatype Extent = Extent(xMin: real, yMin: real, xMax: real, yMax: real) {
    function Width(): real { xMax - xMin }
    function Height(): real { yMax - yMin }
  }

  /** What one task instance is created with. */
  datatype Request = Request(features: seq<string>, extent: Extent, output: string,
                             logFile: string, overwrite: bool)

  /** The checks `start_download` makes before it creates a task. */
  predicate Valid(req: Request) {
    |req.features| > 0 && req.extent.Width() > 0.0 && req.extent.Height() > 0.0
  }

  /** How `run` ended: returned True, returned False after seeing the cancel
      flag, or returned False from its outer exception handler. */
  datatype Status = Completed | Canceled | Failed

  /** The download task's log lines, without timestamps, extents and clock readings. */
  datatype LogLine =
    | RunStarted(count: nat)
    | FeatureStarted(feature: string)
    | FeatureProcessed(feature: string)
    | FeatureFailed(feature: string)
    | DedupStarted
    | LayerNotOpened(feature: string)
    | DuplicatesRemoved(feature: string)
    | DedupFailed(feature: string)
    | RunFinished
    | RunFailed

  /** What a run leaves behind: its status, the progress values it emitted
      in order, and its log. */
  datatype Outcome = Outcome(status: Status, progress: seq<int>, log: seq<LogLine>) {
    /** The boolean `run` hands to `finished`. */
    predicate Result() {
      status == Completed
    }
  }

  /** One step of the scan for the first iteration that sees the cancel flag. */
  function StopScan(isCanceled: nat -> bool, i: nat, n: nat): (k: nat)
    requires i <= n
    requires forall j :: 0 <= j < i ==> !isCanceled(j)
    ensures i <= k <= n
    ensures forall j :: 0 <= j < k ==> !isCanceled(j)
    ensures k < n ==> isCanceled(k)
    decreases n - i
  {
    if i == n || isCanceled(i) then i else StopScan(isCanceled, i + 1, n)
  }

  /** The number of loop iterations a run with `n` features gets through:
      the first index whose cancel poll answers true, or `n`. */
  function StopIndex(isCanceled: nat -> bool, n: nat): (k: nat)
    ensures k <= n
    ensures forall j :: 0 <= j < k ==> !isCanceled(j)
    ensures k < n ==> isCanceled(k)
  {
    StopScan(isCanceled, 0, n)
  }

  /** The model's integer stand-in for the progress `int((i / n) * 100)` of
      iteration `i` of `n`; Python computes it in floating point, so the
      value reported there can be one less (28 rather than 29 for i = 29,
      n = 100). */
  function Percent(i: nat, n: nat): int
    requires n > 0
  {
    (i * 100) / n
  }

  lemma PercentBelowHundred(i: nat, n: nat)
    requires i < n
    ensures 0 <= Percent(i, n) <= 99
  {
    assert i * 100 < n * 100;
  }

  lemma MulLe(n: nat, x: int, y: int)
    requires x <= y
    ensures n * x <= n * y
  {
    assert n * y - n * x == n * (y - x);
  }

  lemma DivLe(a: int, b: int, n: nat)
    requires a <= b && n > 0
    ensures a / n <= b / n
  {
    var qa, qb := a / n, b / n;
    assert a == n * qa + a % n && 0 <= a % n < n;
    assert b == n * qb + b % n && 0 <= b % n < n;
    if qa > qb {
      MulLe(n, qb + 1, qa);
    }
  }

  /** Later iterations never report a smaller percentage. */
  lemma PercentMonotone(i: nat, j: nat, n: nat)
    requires i <= j && n > 0
    ensures Percent(i, n) <= Percent(j, n)
  {
    MulLe(100, i, j);
    DivLe(i * 100, j * 100, n);
  }

  predicate NonDecreasing(s: seq<int>) {
    forall i, j :: 0 <= i < j < |s| ==> s[i] <= s[j]
  }

  /** The names the feature loop announces, in log order. */
  function Announced(log: seq<LogLine>): seq<string> {
    if |log| == 0 then []
    else Announced(log[..|log| - 1]) + (if log[|log| - 1].FeatureStarted? then [log[|log| - 1].feature] else [])
  }

  /** The names a conversion outcome (success or error) reports on, in log order. */
  function Converted(log: seq<LogLine>): seq<string> {
    if |log| == 0 then []
    else Converted(log[..|log| - 1])
         + (if log[|log| - 1].FeatureProcessed? || log[|log| - 1].FeatureFailed? then [log[|log| - 1].feature] else [])
  }

  /** The names a deduplication outcome reports on, in log order. */
  function Deduplicated(log: seq<LogLine>): seq<string> {
    if |log| == 0 then []
    else Deduplicated(log[..|log| - 1])
         + (if DedupLine(log[|log| - 1]) then [log[|log| - 1].feature] else [])
  }

  lemma CollectSnoc(log: seq<LogLine>, line: LogLine)
    ensures Announced(log + [line]) == Announced(log) + (if line.FeatureStarted? then [line.feature] else [])
    ensures Converted(log + [line])
         == Converted(log) + (if line.FeatureProcessed? || line.FeatureFailed? then [line.feature] else [])
    ensures Deduplicated(log + [line]) == Deduplicated(log) + (if DedupLine(line) then [line.feature] else [])
  {
    assert (log + [line])[..|log|] == log;
  }

  /** A line of the feature loop. */
  predicate ConversionLine(line: LogLine) {
    line.FeatureStarted? || line.FeatureProcessed? || line.FeatureFailed?
  }

  /** A line of the deduplication pass reporting on one layer. */
  predicate DedupLine(line: LogLine) {
    line.LayerNotOpened? || line.DuplicatesRemoved? || line.DedupFailed?
  }

  /** A conversion outcome line agrees with the convert oracle. */
  predicate ConvertFaithful(line: LogLine, convertOk: string -> bool) {
    && (line.FeatureProcessed? ==> convertOk(line.feature))
    && (line.FeatureFailed? ==> !convertOk(line.feature))
  }

  /** A deduplication outcome line agrees with the open and dedup oracles on
      the layer source of its (unstripped) feature name. */
  predicate DedupFaithful(line: LogLine, output: string, layerOpens: string -> bool, dedupOk: string -> bool) {
    && (line.LayerNotOpened? ==> !layerOpens(LayerSource(output, line.feature)))
    && (line.DuplicatesRemoved? ==>
          layerOpens(LayerSource(output, line.feature)) && dedupOk(LayerSource(output, line.feature)))
    && (line.DedupFailed? ==>
          layerOpens(LayerSource(output, line.feature)) && !dedupOk(LayerSource(output, line.feature)))
  }

  /** Every log line agrees with the oracle answers it records. */
  predicate FaithfulLog(log: seq<LogLine>, output: string, convertOk: string -> bool,
                        layerOpens: string -> bool, dedupOk: string -> bool) {
    forall k :: 0 <= k < |log| ==>
      ConvertFaithful(log[k], convertOk) && DedupFaithful(log[k], output, layerOpens, dedupOk)
  }

  lemma {:induction false} AnnouncedAppend(a: seq<LogLine>, b: seq<LogLine>)
    ensures Announced(a + b) == Announced(a) + Announced(b)
    decreases |b|
  {
    if |b| > 0 {
      var b' := b[..|b| - 1];
      assert (a + b)[..|a + b| - 1] == a + b';
      AnnouncedAppend(a, b');
    } else {
      assert a + b == a;
    }
  }

  lemma {:induction false} ConvertedAppend(a: seq<LogLine>, b: seq<LogLine>)
    ensures Converted(a + b) == Converted(a) + Converted(b)
    decreases |b|
  {
    if |b| > 0 {
      var b' := b[..|b| - 1];
      assert (a + b)[..|a + b| - 1] == a + b';
      ConvertedAppend(a, b');
    } else {
      assert a + b == a;
    }
  }

  lemma {:induction false} DeduplicatedAppend(a: seq<LogLine>, b: seq<LogLine>)
    ensures Deduplicated(a + b) == Deduplicated(a) + Deduplicated(b)
    decreases |b|
  {
    if |b| > 0 {
      var b' := b[..|b| - 1];
      assert (a + b)[..|a + b| - 1] == a + b';
      DeduplicatedAppend(a, b');
    } else {
      assert a + b == a;
    }
  }

  /** Each projection of a joined log is the join of the projections. */
  lemma CollectAppend(a: seq<LogLine>, b: seq<LogLine>)
    ensures Announced(a + b) == Announced(a) + Announced(b)
    ensures Converted(a + b) == Converted(a) + Converted(b)
    ensures Deduplicated(a + b) == Deduplicated(a) + Deduplicated(b)
  {
    AnnouncedAppend(a, b);
    ConvertedAppend(a, b);
    DeduplicatedAppend(a, b);
  }

  /** The log lines one feature name contributes to the loop: none for a
      blank name, otherwise the announcement and the conversion outcome. */
  function FeatureLines(name: string, convertOk: string -> bool): seq<LogLine> {
    if name == [] then []
    else [FeatureStarted(name), if convertOk(name) then FeatureProcessed(name) else FeatureFailed(name)]
  }

  /** The log lines the feature loop writes for the names in `features`. */
  function LoopLines(features: seq<string>, convertOk: string -> bool): seq<LogLine> {
    if |features| == 0 then []
    else LoopLines(features[..|features| - 1], convertOk) + FeatureLines(Strip(features[|features| - 1]), convertOk)
  }

  /** The progress values the feature loop reports over the first
      `|features|` of `n` iterations: one per non-blank name, taken when its
      iteration starts. */
  function LoopReports(features: seq<string>, n: nat): seq<int>
    requires 0 < n && |features| <= n
  {
    if |features| == 0 then []
    else LoopReports(features[..|features| - 1], n)
         + (if Strip(features[|features| - 1]) == [] then [] else [Percent(|features| - 1, n)])
  }

  /** The loop announces, and reports an outcome for, exactly the stripped
      non-blank names in order; it writes no deduplication line. */
  lemma {:induction false} LoopLinesNames(features: seq<string>, convertOk: string -> bool)
    ensures Announced(LoopLines(features, convertOk)) == NonBlankNames(features)
    ensures Converted(LoopLines(features, convertOk)) == NonBlankNames(features)
    ensures Deduplicated(LoopLines(features, convertOk)) == []
  {
    if |features| > 0 {
      var prefix := features[..|features| - 1];
      var name := Strip(features[|features| - 1]);
      LoopLinesNames(prefix, convertOk);
      CollectAppend(LoopLines(prefix, convertOk), FeatureLines(name, convertOk));
      FeatureLinesNames(name, convertOk);
    }
  }

  /** One name's lines announce it and report on it once, or not at all
      when it is blank. */
  lemma FeatureLinesNames(name: string, convertOk: string -> bool)
    ensures var names := if name == [] then [] else [name];
      && Announced(FeatureLines(name, convertOk)) == names
      && Converted(FeatureLines(name, convertOk)) == names
      && Deduplicated(FeatureLines(name, convertOk)) == []
  {
    if name != [] {
      var lines := FeatureLines(name, convertOk);
      var started := [lines[0]];
      assert started == [] + [lines[0]];
      CollectSnoc([], lines[0]);
      assert lines == started + [lines[1]];
      CollectSnoc(started, lines[1]);
    }
  }

  /** Every loop line is a conversion line whose outcome is the convert
      oracle's answer. */
  lemma {:induction false} LoopLinesFaithful(features: seq<string>, convertOk: string -> bool)
    ensures forall k :: 0 <= k < |LoopLines(features, convertOk)| ==>
      ConversionLine(LoopLines(features, convertOk)[k]) && ConvertFaithful(LoopLines(features, convertOk)[k], convertOk)
  {
    if |features| > 0 {
      LoopLinesFaithful(features[..|features| - 1], convertOk);
    }
  }

  /** One report per non-blank name; every report lies in 0..99, never
      exceeds the percentage of the next iteration, and reports never
      decrease. */
  lemma {:induction false} LoopReportsBounded(features: seq<string>, n: nat)
    requires 0 < n && |features| <= n
    ensures |LoopReports(features, n)| == |NonBlankNames(features)|
    ensures forall k :: 0 <= k < |LoopReports(features, n)| ==>
      0 <= LoopReports(features, n)[k] <= 99 && LoopReports(features, n)[k] <= Percent(|features|, n)
    ensures NonDecreasing(LoopReports(features, n))
  {
    if |features| > 0 {
      var i := |features| - 1;
      LoopReportsBounded(features[..i], n);
      PercentBelowHundred(i, n);
      PercentMonotone(i, i + 1, n);
    }
  }

  /** One more iteration of the loop adds the lines and the report of one
      name. */
  lemma LoopStep(features: seq<string>, i: nat, convertOk: string -> bool, n: nat)
    requires i < |features| <= n
    ensures LoopLines(features[..i + 1], convertOk)
         == LoopLines(features[..i], convertOk) + FeatureLines(Strip(features[i]), convertOk)
    ensures LoopReports(features[..i + 1], n)
         == LoopReports(features[..i], n) + (if Strip(features[i]) == [] then [] else [Percent(i, n)])
  {
    assert features[..i + 1][..i] == features[..i];
  }

  /** The body of one loop iteration for an already stripped name: a blank
      name is skipped; any other gets a progress report, an announcement and
      the outcome of one conversion attempt. */
  method HandleFeature(name: string, i: nat, n: nat, convertOk: string -> bool)
    returns (reports: seq<int>, lines: seq<LogLine>)
    requires i < n
    ensures reports == (if name == [] then [] else [Percent(i, n)])
    ensures lines == FeatureLines(name, convertOk)
  {
    if name == [] {
      return [], [];
    }
    reports := [Percent(i, n)];
    if convertOk(name) {
      lines := [FeatureStarted(name), FeatureProcessed(name)];
    } else {
      lines := [FeatureStarted(name), FeatureFailed(name)];
    }
  }

  /** The feature loop of `run` (lines 654-688): stops at the first iteration
      whose cancel poll answers true; a blank name is skipped without a
      progress report; any other name gets a progress report and one
      conversion attempt whose outcome, success or error, is logged. */
  method ConvertAll(features: seq<string>, isCanceled: nat -> bool, convertOk: string -> bool)
    returns (canceled: bool, progress: seq<int>, log: seq<LogLine>)
    requires |features| > 0
    ensures canceled <==> StopIndex(isCanceled, |features|) < |features|
    ensures log == LoopLines(features[..StopIndex(isCanceled, |features|)], convertOk)
    ensures progress == LoopReports(features[..StopIndex(isCanceled, |features|)], |features|)
  {
    var n := |features|;
    progress := [];
    log := [];
    var i := 0;
    while i < n
      invariant 0 <= i <= n
      invariant i <= StopIndex(isCanceled, n)
      invariant log == LoopLines(features[..i], convertOk)
      invariant progress == LoopReports(features[..i], n)
    {
      if isCanceled(i) {
        return true, progress, log;
      }
      LoopStep(features, i, convertOk, n);
      var reports, lines := HandleFeature(Strip(features[i]), i, n, convertOk);
      progress := progress + reports;
      log := log + lines;
      i := i + 1;
    }
    canceled := false;
  }

  /** The log line the deduplication pass writes for one requested name:
      the layer source is built from the name as given, unstripped. */
  function DedupLineOf(f: string, output: string, layerOpens: string -> bool, dedupOk: string -> bool): LogLine {
    var source := LayerSource(output, f);
    if !layerOpens(source) then LayerNotOpened(f)
    else if dedupOk(source) then DuplicatesRemoved(f)
    else DedupFailed(f)
  }

  /** The log lines the deduplication pass writes for the names in `features`. */
  function DedupLines(features: seq<string>, output: string, layerOpens: string -> bool,
                      dedupOk: string -> bool): seq<LogLine> {
    if |features| == 0 then []
    else DedupLines(features[..|features| - 1], output, layerOpens, dedupOk)
         + [DedupLineOf(features[|features| - 1], output, layerOpens, dedupOk)]
  }

  /** The line for one name is a deduplication outcome about that name. */
  lemma DedupLineOfNames(f: string, output: string, layerOpens: string -> bool, dedupOk: string -> bool)
    ensures DedupLine(DedupLineOf(f, output, layerOpens, dedupOk))
    ensures DedupLineOf(f, output, layerOpens, dedupOk).feature == f
    ensures DedupFaithful(DedupLineOf(f, output, layerOpens, dedupOk), output, layerOpens, dedupOk)
  {
  }

  /** The pass reports on every requested name, in order, and writes no
      conversion line. */
  lemma {:induction false} DedupLinesNames(features: seq<string>, output: string, layerOpens: string -> bool,
                                           dedupOk: string -> bool)
    ensures Deduplicated(DedupLines(features, output, layerOpens, dedupOk)) == features
    ensures Announced(DedupLines(features, output, layerOpens, dedupOk)) == []
    ensures Converted(DedupLines(features, output, layerOpens, dedupOk)) == []
  {
    if |features| > 0 {
      var prefix := features[..|features| - 1];
      var f := features[|features| - 1];
      var line := DedupLineOf(f, output, layerOpens, dedupOk);
      var lines := DedupLines(prefix, output, layerOpens, dedupOk);
      DedupLinesNames(prefix, output, layerOpens, dedupOk);
      DedupLineOfNames(f, output, layerOpens, dedupOk);
      CollectSnoc(lines, line);
      assert DedupLines(features, output, layerOpens, dedupOk) == lines + [line];
      assert Deduplicated(lines + [line]) == prefix + [f];
      assert prefix + [f] == features;
    }
  }

  /** Every line of the pass is a deduplication outcome that agrees with the
      open and deduplicate oracles. */
  lemma {:induction false} DedupLinesFaithful(features: seq<string>, output: string, layerOpens: string -> bool,
                                              dedupOk: string -> bool)
    ensures forall k :: 0 <= k < |DedupLines(features, output, layerOpens, dedupOk)| ==>
      DedupLine(DedupLines(features, output, layerOpens, dedupOk)[k])
      && DedupFaithful(DedupLines(features, output, layerOpens, dedupOk)[k], output, layerOpens, dedupOk)
  {
    if |features| > 0 {
      DedupLinesFaithful(features[..|features| - 1], output, layerOpens, dedupOk);
    }
  }

  /** The deduplication pass of `run` (lines 695-736), over the requested
      names as given, unstripped: a layer that does not open is logged and
      skipped; for one that opens, the deduplicate-and-save step's success
      or error is logged; the pass always reaches every name. */
  method DedupAll(features: seq<string>, output: string, layerOpens: string -> bool, dedupOk: string -> bool)
    returns (log: seq<LogLine>)
    ensures log == DedupLines(features, output, layerOpens, dedupOk)
  {
    log := [];
    var j := 0;
    while j < |features|
      invariant 0 <= j <= |features|
      invariant log == DedupLines(features[..j], output, layerOpens, dedupOk)
    {
      assert features[..j + 1][..j] == features[..j];
      var f := features[j];
      var source := LayerSource(output, f);
      var line := if !layerOpens(source) then LayerNotOpened(f)
                  else if dedupOk(source) then DuplicatesRemoved(f)
                  else DedupFailed(f);
      log := log + [line];
      j := j + 1;
    }
    assert features[..|features|] == features;
  }

  /** A marker line (run start or end, start of the deduplication pass,
      failure) names no feature. */
  lemma CollectMarker(line: LogLine)
    requires line.RunStarted? || line.DedupStarted? || line.RunFinished? || line.RunFailed?
    ensures Announced([line]) == []
    ensures Converted([line]) == []
    ensures Deduplicated([line]) == []
  {
    assert [line][..0] == [];
  }

  /** Loop lines agree with every oracle and hold no marker. */
  lemma LoopLinesPlain(features: seq<string>, output: string, convertOk: string -> bool,
                       layerOpens: string -> bool, dedupOk: string -> bool)
    ensures FaithfulLog(LoopLines(features, convertOk), output, convertOk, layerOpens, dedupOk)
    ensures DedupStarted !in LoopLines(features, convertOk)
    ensures RunFinished !in LoopLines(features, convertOk)
  {
    var lines := LoopLines(features, convertOk);
    LoopLinesFaithful(features, convertOk);
    assert forall k :: 0 <= k < |lines| ==> ConversionLine(lines[k]);
  }

  /** Deduplication lines agree with every oracle and hold no marker. */
  lemma DedupLinesPlain(features: seq<string>, output: string, convertOk: string -> bool,
                        layerOpens: string -> bool, dedupOk: string -> bool)
    ensures FaithfulLog(DedupLines(features, output, layerOpens, dedupOk), output, convertOk, layerOpens, dedupOk)
    ensures DedupStarted !in DedupLines(features, output, layerOpens, dedupOk)
    ensures RunFinished !in DedupLines(features, output, layerOpens, dedupOk)
  {
    var lines := DedupLines(features, output, layerOpens, dedupOk);
    DedupLinesFaithful(features, output, layerOpens, dedupOk);
    assert forall k :: 0 <= k < |lines| ==> DedupLine(lines[k]);
  }

  /** A marker line records no oracle answer, so it is trivially faithful. */
  lemma MarkerLog(line: LogLine, output: string, convertOk: string -> bool,
                  layerOpens: string -> bool, dedupOk: string -> bool)
    requires line.RunStarted? || line.DedupStarted? || line.RunFinished? || line.RunFailed?
    ensures FaithfulLog([line], output, convertOk, layerOpens, dedupOk)
  {
  }

  /** Joining two faithful logs gives a faithful log. */
  lemma JoinLogs(a: seq<LogLine>, b: seq<LogLine>, output: string, convertOk: string -> bool,
                 layerOpens: string -> bool, dedupOk: string -> bool)
    requires FaithfulLog(a, output, convertOk, layerOpens, dedupOk)
    requires FaithfulLog(b, output, convertOk, layerOpens, dedupOk)
    ensures FaithfulLog(a + b, output, convertOk, layerOpens, dedupOk)
  {
    forall k | 0 <= k < |a + b|
      ensures ConvertFaithful((a + b)[k], convertOk) && DedupFaithful((a + b)[k], output, layerOpens, dedupOk)
    {
      if k >= |a| {
        assert (a + b)[k] == b[k - |a|];
      }
    }
  }

  /** The log up to the end of the feature loop: the run header, then the
      loop's lines. It names the loop's features, has no deduplication
      line or later marker, and agrees with the convert oracle. */
  lemma LoopLogFacts(n: nat, features: seq<string>, output: string, convertOk: string -> bool,
                     layerOpens: string -> bool, dedupOk: string -> bool)
    ensures var log := [RunStarted(n)] + LoopLines(features, convertOk);
      && Announced(log) == NonBlankNames(features)
      && Converted(log) == NonBlankNames(features)
      && Deduplicated(log) == []
      && FaithfulLog(log, output, convertOk, layerOpens, dedupOk)
      && DedupStarted !in log && RunFinished !in log
  {
    var lines := LoopLines(features, convertOk);
    LoopLinesNames(features, convertOk);
    LoopLinesPlain(features, output, convertOk, layerOpens, dedupOk);
    MarkerLog(RunStarted(n), output, convertOk, layerOpens, dedupOk);
    CollectMarker(RunStarted(n));
    JoinLogs([RunStarted(n)], lines, output, convertOk, layerOpens, dedupOk);
    CollectAppend([RunStarted(n)], lines);
  }

  /** The deduplication part of a completed run in append mode: its marker,
      then one line per requested name. It names every requested name,
      converts nothing, has no end marker, and agrees with the open and
      deduplicate oracles. */
  lemma DedupLogFacts(features: seq<string>, output: string, convertOk: string -> bool,
                      layerOpens: string -> bool, dedupOk: string -> bool)
    ensures var log := [DedupStarted] + DedupLines(features, output, layerOpens, dedupOk);
      && Announced(log) == []
      && Converted(log) == []
      && Deduplicated(log) == features
      && FaithfulLog(log, output, convertOk, layerOpens, dedupOk)
      && DedupStarted in log && RunFinished !in log
  {
    var lines := DedupLines(features, output, layerOpens, dedupOk);
    DedupLinesNames(features, output, layerOpens, dedupOk);
    DedupLinesPlain(features, output, convertOk, layerOpens, dedupOk);
    MarkerLog(DedupStarted, output, convertOk, layerOpens, dedupOk);
    CollectMarker(DedupStarted);
    JoinLogs([DedupStarted], lines, output, convertOk, layerOpens, dedupOk);
    CollectAppend([DedupStarted], lines);
    assert ([DedupStarted] + lines)[0] == DedupStarted;
  }

  /** The final report of 100 after reports of at most 99 keeps the
      sequence non-decreasing. */
  lemma AppendHundred(progress: seq<int>)
    requires NonDecreasing(progress)
    requires forall k :: 0 <= k < |progress| ==> progress[k] <= 99
    ensures NonDecreasing(progress + [100])
  {
  }

  /** The log of a completed run: header, the loop lines of the converted
      names, in append mode the deduplication part over the requested
      names, then the end marker. */
  lemma CompletedLogFacts(n: nat, converted: seq<string>, requested: seq<string>, output: string, overwrite: bool,
                          convertOk: string -> bool, layerOpens: string -> bool, dedupOk: string -> bool)
    ensures var log := [RunStarted(n)] + LoopLines(converted, convertOk)
                       + (if overwrite then [] else [DedupStarted] + DedupLines(requested, output, layerOpens, dedupOk))
                       + [RunFinished];
      && Announced(log) == NonBlankNames(converted)
      && Converted(log) == NonBlankNames(converted)
      && Deduplicated(log) == (if overwrite then [] else requested)
      && FaithfulLog(log, output, convertOk, layerOpens, dedupOk)
      && (DedupStarted in log <==> !overwrite)
      && RunFinished in log
  {
    var head := [RunStarted(n)] + LoopLines(converted, convertOk);
    var tail: seq<LogLine> := if overwrite then [] else [DedupStarted] + DedupLines(requested, output, layerOpens, dedupOk);
    LoopLogFacts(n, converted, output, convertOk, layerOpens, dedupOk);
    if overwrite {
      assert head + tail == head;
    } else {
      DedupLogFacts(requested, output, convertOk, layerOpens, dedupOk);
      JoinLogs(head, tail, output, convertOk, layerOpens, dedupOk);
      CollectAppend(head, tail);
    }
    var body := head + tail;
    assert Announced(body) == NonBlankNames(converted) && Converted(body) == NonBlankNames(converted);
    assert Deduplicated(body) == (if overwrite then [] else requested);
    assert FaithfulLog(body, output, convertOk, layerOpens, dedupOk);
    assert DedupStarted in body <==> !overwrite;
    MarkerLog(RunFinished, output, convertOk, layerOpens, dedupOk);
    CollectMarker(RunFinished);
    JoinLogs(body, [RunFinished], output, convertOk, layerOpens, dedupOk);
    CollectAppend(body, [RunFinished]);
    assert (body + [RunFinished])[|body|] == RunFinished;
  }

  /** What `Top10NLDownloadTask.run` produces. `headerWritable` says whether
      the log header can be written (the one failure of the outer exception
      handler the model covers), `isCanceled(i)` is the answer of the cancel poll
      of iteration `i`, `convertOk` whether `gdal:convertformat` succeeds for
      a feature name, `layerOpens` whether a layer source opens as a valid
      layer, and `dedupOk` whether deduplicating and saving that layer
      succeeds. */
  function RunOutcome(req: Request, headerWritable: bool, isCanceled: nat -> bool, convertOk: string -> bool,
                      layerOpens: string -> bool, dedupOk: string -> bool): Outcome
    requires Valid(req)
  {
    if !headerWritable then Outcome(Failed, [], [RunFailed])
    else
      var n := |req.features|;
      var stop := StopIndex(isCanceled, n);
      var log := [RunStarted(n)] + LoopLines(req.features[..stop], convertOk);
      var reports := LoopReports(req.features[..stop], n);
      if stop < n then Outcome(Canceled, reports, log)
      else
        var dedup := if req.overwrite then [] else [DedupStarted] + DedupLines(req.features, req.output, layerOpens, dedupOk);
        Outcome(Completed, reports + [100], log + dedup + [RunFinished])
  }

  /** `Top10NLDownloadTask.run` (lines 632-749): the header, the feature
      loop, the final report of 100, in append mode the deduplication pass,
      and the end marker; a failure to write the header goes to the outer
      handler and fails the run. */
  method Run(req: Request, headerWritable: bool, isCanceled: nat -> bool, convertOk: string -> bool,
             layerOpens: string -> bool, dedupOk: string -> bool) returns (r: Outcome)
    requires Valid(req)
    ensures r == RunOutcome(req, headerWritable, isCanceled, convertOk, layerOpens, dedupOk)
  {
    if !headerWritable {
      return Outcome(Failed, [], [RunFailed]);
    }
    var n := |req.features|;
    var canceled, progress, lines := ConvertAll(req.features, isCanceled, convertOk);
    var log := [RunStarted(n)] + lines;
    if canceled {
      return Outcome(Canceled, progress, log);
    }
    assert req.features[..n] == req.features;
    var tail: seq<LogLine> := [];
    if !req.overwrite {
      var dedup := DedupAll(req.features, req.output, layerOpens, dedupOk);
      tail := [DedupStarted] + dedup;
    }
    r := Outcome(Completed, progress + [100], log + tail + [RunFinished]);
  }

  /** A run fails only when its header cannot be written, and then logs
      nothing but the failure; otherwise it completes exactly when no cancel
      poll answers true. */
  lemma RunStatus(req: Request, headerWritable: bool, isCanceled: nat -> bool, convertOk: string -> bool,
                  layerOpens: string -> bool, dedupOk: string -> bool)
    requires Valid(req)
    ensures var r := RunOutcome(req, headerWritable, isCanceled, convertOk, layerOpens, dedupOk);
      && (r.status == Failed <==> !headerWritable)
      && (!headerWritable ==> r.progress == [] && r.log == [RunFailed])
      && (headerWritable ==> (r.status == Completed <==> StopIndex(isCanceled, |req.features|) == |req.features|))
      && (r.Result() <==> r.status == Completed)
  {
  }

  /** The features a run announces and converts are the stripped non-blank
      names before the first cancelled iteration, whatever each conversion
      returns: an error on one feature does not stop the later ones, and no
      feature from the cancelled iteration on is reached. */
  lemma RunConvertsBeforeStop(req: Request, headerWritable: bool, isCanceled: nat -> bool, convertOk: string -> bool,
                              layerOpens: string -> bool, dedupOk: string -> bool)
    requires Valid(req) && headerWritable
    ensures var r := RunOutcome(req, headerWritable, isCanceled, convertOk, layerOpens, dedupOk);
      && Announced(r.log) == NonBlankNames(req.features[..StopIndex(isCanceled, |req.features|)])
      && Converted(r.log) == NonBlankNames(req.features[..StopIndex(isCanceled, |req.features|)])
  {
    var n := |req.features|;
    var stop := StopIndex(isCanceled, n);
    if stop < n {
      LoopLogFacts(n, req.features[..stop], req.output, convertOk, layerOpens, dedupOk);
    } else {
      CompletedLogFacts(n, req.features[..stop], req.features, req.output, req.overwrite,
                        convertOk, layerOpens, dedupOk);
    }
  }

  /** Progress: one report per announced feature, each in 0..99, never
      decreasing, followed by 100 exactly when the run completes. */
  lemma RunProgress(req: Request, headerWritable: bool, isCanceled: nat -> bool, convertOk: string -> bool,
                    layerOpens: string -> bool, dedupOk: string -> bool)
    requires Valid(req)
    ensures var r := RunOutcome(req, headerWritable, isCanceled, convertOk, layerOpens, dedupOk);
      var inLoop := if r.status == Completed then |r.progress| - 1 else |r.progress|;
      && NonDecreasing(r.progress)
      && 0 <= inLoop
      && inLoop == |Announced(r.log)|
      && (forall k :: 0 <= k < inLoop ==> 0 <= r.progress[k] <= 99)
      && (r.status == Completed ==> r.progress[inLoop] == 100)
  {
    if headerWritable {
      var n := |req.features|;
      var stop := StopIndex(isCanceled, n);
      LoopReportsBounded(req.features[..stop], n);
      RunConvertsBeforeStop(req, headerWritable, isCanceled, convertOk, layerOpens, dedupOk);
      if stop == n {
        AppendHundred(LoopReports(req.features[..stop], n));
      }
    } else {
      CollectMarker(RunFailed);
    }
  }

  /** The deduplication pass runs exactly when the run completes in append
      mode, and then reports on every requested name; the end marker is
      logged exactly when the run completes. */
  lemma RunDeduplicates(req: Request, headerWritable: bool, isCanceled: nat -> bool, convertOk: string -> bool,
                        layerOpens: string -> bool, dedupOk: string -> bool)
    requires Valid(req)
    ensures var r := RunOutcome(req, headerWritable, isCanceled, convertOk, layerOpens, dedupOk);
      && Deduplicated(r.log) == (if r.status == Completed && !req.overwrite then req.features else [])
      && (DedupStarted in r.log <==> r.status == Completed && !req.overwrite)
      && (RunFinished in r.log <==> r.status == Completed)
  {
    var r := RunOutcome(req, headerWritable, isCanceled, convertOk, layerOpens, dedupOk);
    if headerWritable {
      var n := |req.features|;
      var stop := StopIndex(isCanceled, n);
      if stop < n {
        LoopLogFacts(n, req.features[..stop], req.output, convertOk, layerOpens, dedupOk);
        assert r.status == Canceled && r.log == [RunStarted(n)] + LoopLines(req.features[..stop], convertOk);
      } else {
        assert r.status == Completed;
        CompletedLogFacts(n, req.features[..stop], req.features, req.output, req.overwrite,
                          convertOk, layerOpens, dedupOk);
      }
    } else {
      CollectMarker(RunFailed);
    }
  }

  /** Every line of a run's log agrees with the oracle answers it records. */
  lemma RunLogFaithful(req: Request, headerWritable: bool, isCanceled: nat -> bool, convertOk: string -> bool,
                       layerOpens: string -> bool, dedupOk: string -> bool)
    requires Valid(req)
    ensures FaithfulLog(RunOutcome(req, headerWritable, isCanceled, convertOk, layerOpens, dedupOk).log,
                        req.output, convertOk, layerOpens, dedupOk)
  {
    if headerWritable {
      var n := |req.features|;
      var stop := StopIndex(isCanceled, n);
      if stop < n {
        LoopLogFacts(n, req.features[..stop], req.output, convertOk, layerOpens, dedupOk);
      } else {
        CompletedLogFacts(n, req.features[..stop], req.features, req.output, req.overwrite,
                          convertOk, layerOpens, dedupOk);
      }
    }
  }
}
