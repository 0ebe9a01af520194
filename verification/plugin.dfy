/** The plugin object's sequential decisions: adopting a loaded feature
    list, deriving the default log path from the output path, and the checks
    `start_download` makes before it hands a request to the download task. */
module Plugin {
  import opened Options
  import opened Paths
  import Catalog
  import Download

  /** The plugin state these handlers touch: the offered feature names and
      the default log path. */
  datatype State = State(features: seq<string>, defaultLog: string)

  /** `on_features_loaded` (lines 271-274): a non-empty loaded list replaces
      the offered features; an empty one leaves everything as it was. */
  function OnFeaturesLoaded(st: State, loaded: seq<string>): (r: State)
    ensures r.defaultLog == st.defaultLog
    ensures loaded != [] ==> r.features == loaded
    ensures loaded == [] ==> r == st
  {
    if |loaded| > 0 then st.(features := loaded) else st
  }

  /** Whatever the catalog answers, the offered list is never emptied: it is
      either kept or becomes the sorted ids of the answer. */
  lemma CatalogNeverEmptiesFeatures(st: State, response: Option<seq<Option<string>>>)
    requires st.features != []
    ensures var r := OnFeaturesLoaded(st, Catalog.ExtractIds(response));
      && r.features != []
      && (r.features == st.features || Catalog.Sorted(r.features))
  {
  }

  /** A response without a collections list, or whose collections carry no
      id, keeps the current features. */
  lemma NoIdsKeepsFeatures(st: State, response: Option<seq<Option<string>>>)
    requires response.Some? ==> forall k :: 0 <= k < |response.value| ==> response.value[k].None?
    ensures OnFeaturesLoaded(st, Catalog.ExtractIds(response)) == st
  {
    if response.Some? {
      var ids := Catalog.ExtractIds(response);
      forall x
        ensures multiset(ids)[x] == 0
      {
        assert Some(x) !in response.value;
      }
      assert multiset(ids) == multiset{};
    }
  }

  /** `on_output_file_changed` (lines 341-343): the default log path follows
      the output path. */
  function OnOutputFileChanged(st: State, text: string): (r: State)
    ensures r.features == st.features
    ensures r.defaultLog == LogPath(text)
  {
    st.(defaultLog := LogPath(text))
  }

  /** Editing the output path to `root + ext` makes the default log
      `root + ".log"`. */
  lemma OutputChangeSetsLog(st: State, root: string, ext: string)
    requires IsExtension(ext)
    requires NonDotBetween(root, RFind(root, '/') + 1, |root|)
    ensures OnOutputFileChanged(st, root + ext).defaultLog == root + ".log"
  {
    LogPathReplacesExtension(root, ext);
  }

  /** Why `start_download` declined to create a task. */
  datatype Rejection = NoFeaturesSelected | InvalidExtent

  /** What `start_download` does with the dialog's values. */
  datatype StartResult = Started(req: Download.Request) | Rejected(why: Rejection)

  /** `start_download` (lines 346-397): the selection is checked first, the
      extent second; a started request carries the selection, extent,
      output path, overwrite mode and the log path derived from the output. */
  function StartDownload(selected: seq<string>, extent: Download.Extent, output: string, overwrite: bool): (r: StartResult)
    ensures r.Started? <==> Download.Valid(Download.Request(selected, extent, output, LogPath(output), overwrite))
    ensures selected == [] ==> r == Rejected(NoFeaturesSelected)
    ensures selected != [] && (extent.Width() <= 0.0 || extent.Height() <= 0.0) ==> r == Rejected(InvalidExtent)
    ensures r.Started? ==>
      && r.req.features == selected && r.req.extent == extent && r.req.output == output
      && r.req.overwrite == overwrite
  {
    var logFile := LogPath(output);
    if |selected| == 0 then Rejected(NoFeaturesSelected)
    else if extent.Width() <= 0.0 || extent.Height() <= 0.0 then Rejected(InvalidExtent)
    else Started(Download.Request(selected, extent, output, logFile, overwrite))
  }

  /** The download task writes to the log path the dialog shows for the same output
      path, and a started request meets the download run's precondition. */
  lemma StartedRequestAgrees(st: State, selected: seq<string>, extent: Download.Extent, output: string, overwrite: bool)
    requires StartDownload(selected, extent, output, overwrite).Started?
    ensures var req := StartDownload(selected, extent, output, overwrite).req;
      && req.logFile == OnOutputFileChanged(st, output).defaultLog
      && Download.Valid(req)
  {
  }
}
