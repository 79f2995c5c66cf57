/** `ui/DefineViewModel.kt`: the state holder that owns the two lists, loads
    them from disk at most once and writes them back. The disk is passed in
    and returned explicitly; the Compose observable wrappers are plain
    fields here. */
module ViewModel {
  import opened Wrappers
  import opened Storage
  import opened QueryHistory
  import opened QueryVariants
  import Text

  const QUERY_VARIANTS_FILENAME: string := "query-variants.list"
  const QUERY_HISTORY_FILENAME: string := "query-history.list"

  datatype DefineViewModel = DefineViewModel(
    queryVariants: seq<QueryVariant>,
    queryHistory: seq<Query>,
    fileLoadingIsDone: bool)

  /** A freshly constructed view model: only the built-in variant, no
      history, nothing loaded yet. */
  const Initial: DefineViewModel := DefineViewModel([GOOGLE_DEFINE], [], false)

  /** Every held variant satisfies the `QueryVariant` constructor check. */
  predicate VariantsValid(s: DefineViewModel) {
    forall k :: 0 <= k < |s.queryVariants| ==> s.queryVariants[k].Valid()
  }

  /** `loadInitialDataFromDisk`: does nothing once loading is done;
      otherwise loads the variants, then loads the history against the
      variant count AFTER that step, keeps whichever list failed to load,
      and marks loading as done. */
  function LoadInitialDataFromDisk(s: DefineViewModel, disk: Disk): (r: DefineViewModel)
    ensures r.fileLoadingIsDone
    ensures s.fileLoadingIsDone ==> r == s
    ensures !s.fileLoadingIsDone && LoadQueryVariantsFile(disk, QUERY_VARIANTS_FILENAME).Success? ==>
      r.queryVariants == LoadQueryVariantsFile(disk, QUERY_VARIANTS_FILENAME).value
    ensures LoadQueryVariantsFile(disk, QUERY_VARIANTS_FILENAME).Failure? ==> r.queryVariants == s.queryVariants
    ensures QUERY_HISTORY_FILENAME !in disk ==> r.queryHistory == s.queryHistory
    ensures !s.fileLoadingIsDone && QUERY_HISTORY_FILENAME in disk ==>
      forall k :: 0 <= k < |r.queryHistory| ==> r.queryHistory[k].queryVariantIndex < |r.queryVariants|
  {
    if s.fileLoadingIsDone then s
    else
      var variants :=
        match LoadQueryVariantsFile(disk, QUERY_VARIANTS_FILENAME)
        case Success(loaded) => loaded
        case Failure(_) => s.queryVariants;
      var history :=
        match LoadQueryHistoryFile(disk, QUERY_HISTORY_FILENAME, |variants|)
        case Success(loaded) => loaded
        case Failure(_) => s.queryHistory;
      DefineViewModel(variants, history, true)
  }

  /** `persistDataToDisk`: rewrites exactly the two files with the current
      lists, using the shipped history writer. The view model itself is not
      touched (the function returns only the new disk). */
  function PersistDataToDisk(s: DefineViewModel, disk: Disk): (d: Disk)
    ensures d.Keys == disk.Keys + {QUERY_VARIANTS_FILENAME, QUERY_HISTORY_FILENAME}
    ensures forall f :: f in disk && f != QUERY_VARIANTS_FILENAME && f != QUERY_HISTORY_FILENAME ==> d[f] == disk[f]
    ensures |d[QUERY_HISTORY_FILENAME]| == 3 * |s.queryHistory| + ContentLength(s.queryHistory)
    ensures |s.queryHistory| > 0 ==>
      d[QUERY_HISTORY_FILENAME][0] == WrittenIndexChar(s.queryHistory[0].queryVariantIndex) &&
      d[QUERY_HISTORY_FILENAME][1] == ' '
  {
    var d1 := SaveQueryVariantsFile(disk, QUERY_VARIANTS_FILENAME, s.queryVariants);
    SaveQueryHistoryFileAsWritten(d1, QUERY_HISTORY_FILENAME, s.queryHistory)
  }

  /** `persistDataToDisk` with the history written in its documented
      decimal format. */
  function PersistDataToDiskCorrected(s: DefineViewModel, disk: Disk): (d: Disk)
    ensures d.Keys == disk.Keys + {QUERY_VARIANTS_FILENAME, QUERY_HISTORY_FILENAME}
    ensures forall f :: f in disk && f != QUERY_VARIANTS_FILENAME && f != QUERY_HISTORY_FILENAME ==> d[f] == disk[f]
  {
    var d1 := SaveQueryVariantsFile(disk, QUERY_VARIANTS_FILENAME, s.queryVariants);
    SaveQueryHistoryFile(d1, QUERY_HISTORY_FILENAME, s.queryHistory)
  }

  /** `createNewQueryVariant`: appends, no uniqueness check. */
  function CreateNewQueryVariant(s: DefineViewModel, v: QueryVariant): (r: DefineViewModel)
    ensures |r.queryVariants| == |s.queryVariants| + 1
    ensures r.queryVariants[..|s.queryVariants|] == s.queryVariants
    ensures r.queryVariants[|s.queryVariants|] == v
    ensures r.queryHistory == s.queryHistory && r.fileLoadingIsDone == s.fileLoadingIsDone
  {
    s.(queryVariants := s.queryVariants + [v])
  }

  /** `recordNewQuery`: prepends, even when the same query is already in the
      history. */
  function RecordNewQuery(s: DefineViewModel, q: Query): (r: DefineViewModel)
    ensures |r.queryHistory| == |s.queryHistory| + 1
    ensures r.queryHistory[0] == q && r.queryHistory[1..] == s.queryHistory
    ensures r.queryVariants == s.queryVariants && r.fileLoadingIsDone == s.fileLoadingIsDone
  {
    s.(queryHistory := [q] + s.queryHistory)
  }

  // ---------------------------------------------------------------------
  // Properties

  /** The initial state holds one valid variant and nothing else. */
  lemma InitialState()
    ensures Initial.queryVariants == [DEFAULT] && Initial.queryHistory == []
    ensures !Initial.fileLoadingIsDone && VariantsValid(Initial)
  {
    GoogleDefineIsValid();
  }

  /** Loading takes effect at most once: a second load, from any disk,
      changes nothing. */
  lemma LoadAtMostOnce(s: DefineViewModel, first: Disk, second: Disk)
    ensures LoadInitialDataFromDisk(LoadInitialDataFromDisk(s, first), second) == LoadInitialDataFromDisk(s, first)
  {
  }

  /** The history is validated against the variant count after the variants
      step: the freshly loaded count when that load succeeded, the previous
      count otherwise. */
  lemma HistoryUsesCountAfterVariantsStep(s: DefineViewModel, disk: Disk)
    requires !s.fileLoadingIsDone && QUERY_HISTORY_FILENAME in disk
    ensures var variants := LoadQueryVariantsFile(disk, QUERY_VARIANTS_FILENAME);
      var count := if variants.Success? then |variants.value| else |s.queryVariants|;
      LoadInitialDataFromDisk(s, disk).queryHistory ==
        QueryHistory.DecodeLines(Text.Lines(disk[QUERY_HISTORY_FILENAME]), count)
  {
  }

  /** With no files on disk (first install) loading keeps the defaults and
      only marks loading as done. */
  lemma FirstInstallKeepsDefaults()
    ensures LoadInitialDataFromDisk(Initial, map[]) == Initial.(fileLoadingIsDone := true)
  {
  }

  /** Every operation keeps the variants valid (for `CreateNewQueryVariant`
      the argument is a constructed, hence valid, `QueryVariant`). */
  lemma OperationsKeepVariantsValid(s: DefineViewModel, disk: Disk, v: QueryVariant, q: Query)
    requires VariantsValid(s) && v.Valid()
    ensures VariantsValid(LoadInitialDataFromDisk(s, disk))
    ensures VariantsValid(CreateNewQueryVariant(s, v))
    ensures VariantsValid(RecordNewQuery(s, q))
  {
  }

  /** Recording the same query twice keeps both copies. */
  lemma RecordDoesNotDeduplicate(s: DefineViewModel, q: Query)
    ensures RecordNewQuery(RecordNewQuery(s, q), q).queryHistory == [q, q] + s.queryHistory
  {
  }

  /** Persisting and then loading into a fresh view model restores the
      variant list when no template holds a line terminator. */
  lemma PersistThenLoadRestoresVariants(s: DefineViewModel, disk: Disk)
    requires VariantsValid(s)
    requires forall k :: 0 <= k < |s.queryVariants| ==> Text.NoTerminators(s.queryVariants[k].template)
    ensures LoadInitialDataFromDisk(Initial, PersistDataToDisk(s, disk)).queryVariants == s.queryVariants
  {
    var d1 := SaveQueryVariantsFile(disk, QUERY_VARIANTS_FILENAME, s.queryVariants);
    VariantsRoundTrip(disk, QUERY_VARIANTS_FILENAME, s.queryVariants);
    var d := PersistDataToDisk(s, disk);
    assert d[QUERY_VARIANTS_FILENAME] == d1[QUERY_VARIANTS_FILENAME];
    assert LoadQueryVariantsFile(d, QUERY_VARIANTS_FILENAME) == LoadQueryVariantsFile(d1, QUERY_VARIANTS_FILENAME);
  }

  /** With the shipped writer, persisting and reloading into a fresh view
      model yields exactly what the history decoder makes of the shipped
      lines (index character, space, content), decoded against the variant
      count after the reload, whenever no index is written as a line
      terminator and no content holds one. */
  lemma PersistThenLoadReadsShippedLines(s: DefineViewModel, disk: Disk)
    requires forall k :: 0 <= k < |s.queryHistory| ==>
      !Text.IsTerminator(WrittenIndexChar(s.queryHistory[k].queryVariantIndex)) &&
      Text.NoTerminators(s.queryHistory[k].content)
    ensures var r := LoadInitialDataFromDisk(Initial, PersistDataToDisk(s, disk));
      r.queryHistory == QueryHistory.DecodeLines(AsWrittenLines(s.queryHistory), |r.queryVariants|)
  {
    var d1 := SaveQueryVariantsFile(disk, QUERY_VARIANTS_FILENAME, s.queryVariants);
    AsWrittenFileLines(d1, QUERY_HISTORY_FILENAME, s.queryHistory);
  }

  /** With the shipped writer, a history whose indices are all below 10 and
      whose contents hold no line terminator reloads as EMPTY. */
  lemma PersistThenLoadLosesHistory(s: DefineViewModel, disk: Disk)
    requires forall k :: 0 <= k < |s.queryHistory| ==>
      0 <= s.queryHistory[k].queryVariantIndex < 10 && Text.NoTerminators(s.queryHistory[k].content)
    ensures LoadInitialDataFromDisk(Initial, PersistDataToDisk(s, disk)).queryHistory == []
  {
    var lines := AsWrittenLines(s.queryHistory);
    forall k | 0 <= k < |s.queryHistory|
      ensures !Text.IsTerminator(WrittenIndexChar(s.queryHistory[k].queryVariantIndex))
    {
      assert WrittenIndexChar(s.queryHistory[k].queryVariantIndex) as int == s.queryHistory[k].queryVariantIndex;
    }
    PersistThenLoadReadsShippedLines(s, disk);
    var n := |LoadInitialDataFromDisk(Initial, PersistDataToDisk(s, disk)).queryVariants|;
    forall j | 0 <= j < |lines| ensures QueryHistory.DecodeLine(lines[j], n) == None {
      assert WrittenIndexChar(s.queryHistory[j].queryVariantIndex) as int == s.queryHistory[j].queryVariantIndex;
      AsWrittenLineDropped(s.queryHistory[j], n);
    }
    NoLineDecodes(lines, n);
  }

  /** With the corrected writer, persisting and reloading restores both
      lists when every history index is below the variant count and no
      template or content holds a line terminator. */
  lemma PersistCorrectedThenLoadRestoresState(s: DefineViewModel, disk: Disk)
    requires VariantsValid(s)
    requires forall k :: 0 <= k < |s.queryVariants| ==> Text.NoTerminators(s.queryVariants[k].template)
    requires forall k :: 0 <= k < |s.queryHistory| ==>
      s.queryHistory[k].queryVariantIndex < |s.queryVariants| && Text.NoTerminators(s.queryHistory[k].content)
    ensures LoadInitialDataFromDisk(Initial, PersistDataToDiskCorrected(s, disk)) == s.(fileLoadingIsDone := true)
  {
    var d1 := SaveQueryVariantsFile(disk, QUERY_VARIANTS_FILENAME, s.queryVariants);
    VariantsRoundTrip(disk, QUERY_VARIANTS_FILENAME, s.queryVariants);
    var d := PersistDataToDiskCorrected(s, disk);
    assert d[QUERY_VARIANTS_FILENAME] == d1[QUERY_VARIANTS_FILENAME];
    assert LoadQueryVariantsFile(d, QUERY_VARIANTS_FILENAME) == Success(s.queryVariants);
    HistoryRoundTrip(d1, QUERY_HISTORY_FILENAME, s.queryHistory, |s.queryVariants|);
  }

  /** Creating a variant, persisting, and loading into a fresh view model
      yields the built-in variant followed by the new one. */
  lemma CreatePersistLoadScenario(x: QueryVariant, disk: Disk)
    requires x.Valid() && Text.NoTerminators(x.template)
    ensures LoadInitialDataFromDisk(Initial, PersistDataToDisk(CreateNewQueryVariant(Initial, x), disk)).queryVariants
      == [DEFAULT, x]
  {
    var s := CreateNewQueryVariant(Initial, x);
    GoogleDefineIsValid();
    assert Text.NoTerminators(GOOGLE_DEFINE.template);
    PersistThenLoadRestoresVariants(s, disk);
  }
}
