/** One run of the grabber: fetch the registry, select the tasks against the
    previously saved registry and the archive cache, run them, and save the
    fetched registry once the batch callback fires.  The HTTP fetch and the
    JSON parse are abstract outcomes; the concurrent execution of the tasks
    is not modelled, only what is handed to the save. */
module Sync {

  import opened Wrappers
  import opened Diff

  /** A parsed registry body: an object of packages whose values carry
      `metadata.version`, or a value on which the task selection throws (the
      `null` document, a non-empty string, a package value that is `null` or
      lacks `metadata`). */
  datatype Body = Registry(entries: seq<Entry>) | Malformed

  /** What the registry request produced: a transport error, or a response
      with a status code and the parse of its body (`None` when the body is
      not valid JSON). */
  datatype Fetch = TransportError | Response(code: int, parsed: Option<Body>)

  /** Why a run stops before running any task.  `RegistryMalformed` is the
      uncaught exception thrown while selecting tasks: the callback dies before
      `async.parallelLimit` is reached. */
  datatype Abort = RegistryDownloadFailed | UnexpectedResponse(code: int) | RegistryParseFailed | RegistryMalformed

  /** A run either stops early, selecting nothing and saving nothing, or
      selects its tasks and hands `toSave` to the save that follows the
      batch callback. */
  datatype RunOutcome = Aborted(reason: Abort) | Reconciled(tasks: seq<Task>, toSave: seq<Entry>)

  function Run(fetch: Fetch, last: map<string, string>, archives: set<string>): (r: RunOutcome)
    ensures fetch.TransportError? ==> r == Aborted(RegistryDownloadFailed)
    ensures fetch.Response? && fetch.code != 200 ==> r == Aborted(UnexpectedResponse(fetch.code))
    ensures fetch.Response? && fetch.code == 200 && fetch.parsed.None? ==> r == Aborted(RegistryParseFailed)
    ensures fetch.Response? && fetch.code == 200 && fetch.parsed == Some(Malformed) ==> r == Aborted(RegistryMalformed)
    ensures r.Reconciled? <==> fetch.Response? && fetch.code == 200 && fetch.parsed.Some? && fetch.parsed.value.Registry?
    ensures r.Reconciled? ==> r.toSave == fetch.parsed.value.entries
    ensures r.Reconciled? ==> r.tasks == ComputeTasks(r.toSave, last, archives)
    ensures r.Reconciled? ==> forall t :: t in r.tasks ==> Entry(t.name, t.version) in r.toSave
  {
    match fetch
    case TransportError => Aborted(RegistryDownloadFailed)
    case Response(code, parsed) =>
      if code != 200 then Aborted(UnexpectedResponse(code))
      else match parsed
        case None => Aborted(RegistryParseFailed)
        case Some(Malformed) => Aborted(RegistryMalformed)
        case Some(Registry(reg)) => Reconciled(ComputeTasks(reg, last, archives), reg)
  }

  /** The value saved does not depend on the last registry or the cache: it
      is the fetched registry, never merged with the previous one. */
  lemma SavedIsFetchedRegistry(fetch: Fetch, last1: map<string, string>, a1: set<string>,
                               last2: map<string, string>, a2: set<string>)
    requires Run(fetch, last1, a1).Reconciled?
    ensures Run(fetch, last2, a2).Reconciled?
    ensures Run(fetch, last1, a1).toSave == Run(fetch, last2, a2).toSave
  {
  }

  /** Once the first run's save has happened, running again with no remote
      change selects nothing: the second run compares the registry with its
      own saved form, whatever the archive cache holds by then. */
  lemma SecondRunHasNoTasks(fetch: Fetch, last: map<string, string>, archives: set<string>, archives2: set<string>)
    requires Run(fetch, last, archives).Reconciled?
    requires DistinctNames(Run(fetch, last, archives).toSave)
    ensures Run(fetch, Snapshot(Run(fetch, last, archives).toSave), archives2).tasks == []
  {
    NoTasksAgainstOwnSnapshot(fetch.parsed.value.entries, archives2);
  }

  /** A package listed with the same version, but whose archive is missing
      from the cache, still gets no task: registry {A: v1, B: v1} against a
      saved {A: v1} with an empty cache downloads B only. */
  lemma UnchangedButUncachedIsSkipped()
    ensures Run(Response(200, Some(Registry([Entry("A", "v1"), Entry("B", "v1")]))), map["A" := "v1"], {}).tasks
      == [Task(DownloadAndExpand, "B", "v1")]
  {
    var reg := [Entry("A", "v1"), Entry("B", "v1")];
    assert reg[..1] == [Entry("A", "v1")];
    assert reg[..1][..0] == [];
  }

  /** When the save did not happen (the batch callback never fired), the
      next run still compares against the old last registry and re-selects
      the same packages, at the same versions and in the same order; only the
      download-or-re-expand choice may change with the cache. */
  lemma UnsavedRunReselects(fetch: Fetch, last: map<string, string>, archives: set<string>, archives2: set<string>)
    requires Run(fetch, last, archives).Reconciled?
    ensures var ts1, ts2 := Run(fetch, last, archives).tasks, Run(fetch, last, archives2).tasks;
      && |ts1| == |ts2|
      && forall k :: 0 <= k < |ts1| ==> ts1[k].name == ts2[k].name && ts1[k].version == ts2[k].version
  {
    var reg := fetch.parsed.value.entries;
    TasksAreSelectedEntries(reg, last, archives);
    TasksAreSelectedEntries(reg, last, archives2);
  }

}
