/** The per-package pipeline as a step trace.  Every external effect
    (download, recursive erase, archive extraction) is an abstract outcome in
    `Env`; running a task yields the ordered list of operations performed,
    including each call of the task's completion callback. */
module Pipeline {

  import opened Naming
  import opened Diff

  /** Why a task reported failure to its completion callback. */
  datatype Failure = DownloadFailed | EraseFailed | ExtractFailed

  /** The argument of one completion callback call: `complete(null)` or `complete(err)`. */
  datatype Completion = Done | Failed(cause: Failure)

  datatype Step =
    | Download(url: string, dest: string)
    | Erase(dir: string)
    | Extract(source: string, dest: string)
    | Complete(result: Completion)

  /** The outcomes of the external operations one task meets: whether its
      expansion directory exists when checked, and whether the download, the
      erase and the extraction succeed. */
  datatype Env = Env(destExists: bool, downloadOk: bool, eraseOk: bool, extractOk: bool)

  /** The completion callback calls in a trace, in order. */
  function Completions(tr: seq<Step>): (cs: seq<Completion>)
    ensures |cs| <= |tr|
  {
    if tr == [] then []
    else (if tr[0].Complete? then [tr[0].result] else []) + Completions(tr[1..])
  }

  lemma {:induction false} CompletionsAppend(a: seq<Step>, b: seq<Step>)
    ensures Completions(a + b) == Completions(a) + Completions(b)
  {
    if a != [] {
      assert (a + b)[1..] == a[1..] + b;
      CompletionsAppend(a[1..], b);
    } else {
      assert a + b == b;
    }
  }

  /** The extraction step.  The extractor's error handler only logs, so a
      failed extraction never completes the task unless
      `reportExtractError` (the corrected behaviour) is set. */
  function Expansion(source: string, dest: string, env: Env, reportExtractError: bool): (tr: seq<Step>)
    ensures |tr| >= 1 && tr[0] == Extract(source, dest)
    ensures forall k :: 1 <= k < |tr| ==> tr[k].Complete?
    ensures env.extractOk ==> tr[|tr| - 1] == Complete(Done)
    ensures |tr| == 1 <==> !env.extractOk && !reportExtractError
  {
    [Extract(source, dest)]
    + (if env.extractOk then [Complete(Done)]
       else if reportExtractError then [Complete(Failed(ExtractFailed))]
       else [])
  }

  /** Remove the old expansion directory when it exists, then extract the
      cached archive into it; a failed erase completes with an error. */
  function DeleteOldThenExpand(name: string, version: string, env: Env, reportExtractError: bool): (tr: seq<Step>)
    ensures |tr| >= 1
    ensures env.destExists ==> tr[0] == Erase(ExpansionDir(name))
    ensures env.destExists && !env.eraseOk ==> tr == [Erase(ExpansionDir(name)), Complete(Failed(EraseFailed))]
    ensures env.destExists && env.eraseOk ==> |tr| >= 2 && tr[1] == Extract(ZipPath(name, version), ExpansionDir(name))
    ensures !env.destExists ==> tr[0] == Extract(ZipPath(name, version), ExpansionDir(name))
    ensures forall s :: s in tr ==> !s.Download?
  {
    var source, dest := ZipPath(name, version), ExpansionDir(name);
    if env.destExists then
      [Erase(dest)]
      + (if env.eraseOk then Expansion(source, dest, env, reportExtractError)
         else [Complete(Failed(EraseFailed))])
    else Expansion(source, dest, env, reportExtractError)
  }

  /** Download the archive into the cache, then continue as
      `DeleteOldThenExpand`; a failed download completes with an error. */
  function DownloadThenExpand(name: string, version: string, env: Env, reportExtractError: bool): (tr: seq<Step>)
    ensures |tr| >= 2 && tr[0] == Download(DownloadUrl(name, version), ZipPath(name, version))
    ensures !env.downloadOk ==> tr == [Download(DownloadUrl(name, version), ZipPath(name, version)), Complete(Failed(DownloadFailed))]
    ensures env.downloadOk ==> tr[1..] == DeleteOldThenExpand(name, version, env, reportExtractError)
  {
    [Download(DownloadUrl(name, version), ZipPath(name, version))]
    + (if env.downloadOk then DeleteOldThenExpand(name, version, env, reportExtractError)
       else [Complete(Failed(DownloadFailed))])
  }

  /** Dispatch on the task kind: only a `DownloadAndExpand` task downloads,
      and it does so first. */
  function Steps(t: Task, env: Env, reportExtractError: bool): (tr: seq<Step>)
    ensures |tr| >= 1
    ensures t.kind == DownloadAndExpand <==> tr[0].Download?
    ensures t.kind == DeleteAndExpand ==> forall s :: s in tr ==> !s.Download?
  {
    match t.kind
    case DeleteAndExpand => DeleteOldThenExpand(t.name, t.version, env, reportExtractError)
    case DownloadAndExpand => DownloadThenExpand(t.name, t.version, env, reportExtractError)
  }

  /** Whether the task gets as far as extracting: its download (if any)
      succeeded and the old directory, if there was one, was erased. */
  predicate ReachesExtraction(t: Task, env: Env)
  {
    && (t.kind == DeleteAndExpand || env.downloadOk)
    && (!env.destExists || env.eraseOk)
  }

  /** The task pipeline as the source runs it. */
  function RunTask(t: Task, env: Env): (tr: seq<Step>)
    ensures |tr| >= 1
    ensures t.kind == DownloadAndExpand <==> tr[0].Download?
    ensures ReachesExtraction(t, env) <==> exists k :: 0 <= k < |tr| && tr[k].Extract?
  {
    Steps(t, env, false)
  }

  /** The pipeline with the extraction error reported to the callback. */
  function RunTaskCorrected(t: Task, env: Env): (tr: seq<Step>)
    ensures |tr| >= 2
    ensures t.kind == DownloadAndExpand <==> tr[0].Download?
    ensures tr[|tr| - 1].Complete?
  {
    Steps(t, env, true)
  }

  /** The completion calls of the building blocks. */
  lemma ExpansionCompletions(source: string, dest: string, env: Env, report: bool)
    ensures Completions(Expansion(source, dest, env, report))
      == if env.extractOk then [Done] else if report then [Failed(ExtractFailed)] else []
  {
    var rest := if env.extractOk then [Complete(Done)]
      else if report then [Complete(Failed(ExtractFailed))] else [];
    CompletionsAppend([Extract(source, dest)], rest);
  }

  /** The task calls its completion callback at most once, and only as its
      final step. */
  lemma RunTaskCompletesAtMostOnce(t: Task, env: Env)
    ensures var tr := RunTask(t, env);
      |Completions(tr)| <= 1 && forall k :: 0 <= k < |tr| - 1 ==> !tr[k].Complete?
  {
    StepsCompletions(t, env, false);
  }

  /** The completion calls of a whole task, by how far it gets. */
  lemma StepsCompletions(t: Task, env: Env, report: bool)
    ensures Completions(Steps(t, env, report))
      == if t.kind == DownloadAndExpand && !env.downloadOk then [Failed(DownloadFailed)]
         else if env.destExists && !env.eraseOk then [Failed(EraseFailed)]
         else if env.extractOk then [Done]
         else if report then [Failed(ExtractFailed)]
         else []
  {
    var source, dest := ZipPath(t.name, t.version), ExpansionDir(t.name);
    ExpansionCompletions(source, dest, env, report);
    CompletionsAppend([Erase(dest)], Expansion(source, dest, env, report));
    CompletionsAppend([Erase(dest)], [Complete(Failed(EraseFailed))]);
    var del := DeleteOldThenExpand(t.name, t.version, env, report);
    var dl := Download(DownloadUrl(t.name, t.version), source);
    CompletionsAppend([dl], del);
    CompletionsAppend([dl], [Complete(Failed(DownloadFailed))]);
  }

  /** A failed download completes with an error straight away: nothing is
      erased or extracted. */
  lemma DownloadFailureStops(t: Task, env: Env)
    requires t.kind == DownloadAndExpand && !env.downloadOk
    ensures RunTask(t, env)
      == [Download(DownloadUrl(t.name, t.version), ZipPath(t.name, t.version)), Complete(Failed(DownloadFailed))]
  {
  }

  /** A task whose archive is already cached never touches the network. */
  lemma ReExpandNeverDownloads(t: Task, env: Env)
    requires t.kind == DeleteAndExpand
    ensures forall s :: s in RunTask(t, env) ==> !s.Download?
  {
  }

  /** A task whose archive is not cached starts by downloading it into the
      cache path the task selection checked. */
  lemma DownloadComesFirst(t: Task, env: Env)
    requires t.kind == DownloadAndExpand
    ensures |RunTask(t, env)| >= 2
    ensures RunTask(t, env)[0] == Download(DownloadUrl(t.name, t.version), ZipPath(t.name, t.version))
  {
  }

  /** A failed erase completes with an error and skips extraction. */
  lemma EraseFailureSkipsExtraction(t: Task, env: Env)
    requires t.kind == DeleteAndExpand || env.downloadOk
    requires env.destExists && !env.eraseOk
    ensures var tr := RunTask(t, env);
      && (forall k :: 0 <= k < |tr| ==> !tr[k].Extract?)
      && Completions(tr) == [Failed(EraseFailed)]
  {
    StepsCompletions(t, env, false);
  }

  /** Extraction happens exactly when the task reaches it, at most once, and
      an existing expansion directory is erased immediately before it; when
      no directory existed nothing is erased. */
  lemma EraseBeforeExtract(t: Task, env: Env)
    ensures var tr := RunTask(t, env);
      && (forall k :: 0 <= k < |tr| && tr[k].Extract? ==>
            && ReachesExtraction(t, env)
            && k == |tr| - 1 - (if env.extractOk then 1 else 0)
            && (env.destExists ==> k >= 1 && tr[k - 1] == Erase(ExpansionDir(t.name))))
      && (ReachesExtraction(t, env) ==> exists k :: 0 <= k < |tr| && tr[k].Extract?)
      && (!env.destExists ==> forall k :: 0 <= k < |tr| ==> !tr[k].Erase?)
  {
    var tr := RunTask(t, env);
    if ReachesExtraction(t, env) {
      var k := |tr| - 1 - (if env.extractOk then 1 else 0);
      assert tr[k].Extract?;
    }
  }

  /** Once extraction runs, success completes the task once with `Done`;
      an extraction error completes it never. */
  lemma ExtractionSignal(t: Task, env: Env)
    requires ReachesExtraction(t, env)
    ensures env.extractOk ==> Completions(RunTask(t, env)) == [Done]
    ensures !env.extractOk ==> Completions(RunTask(t, env)) == []
  {
    StepsCompletions(t, env, false);
  }

  /** A task completes with `Done` exactly when its extraction runs and
      succeeds, and completes not at all exactly when its extraction fails. */
  lemma RunTaskOutcome(t: Task, env: Env)
    ensures Completions(RunTask(t, env)) == [Done] <==> ReachesExtraction(t, env) && env.extractOk
    ensures Completions(RunTask(t, env)) == [] <==> ReachesExtraction(t, env) && !env.extractOk
  {
    StepsCompletions(t, env, false);
  }

  /** Every operation of a task works on that task's paths: the archive is
      downloaded from its URL into the cache path the task selection checked,
      extracted from that same path, into the package's expansion directory,
      which is also the only directory erased. */
  lemma PathsConsistent(t: Task, env: Env, report: bool)
    ensures forall s :: s in Steps(t, env, report) ==>
      && (s.Download? ==> s.url == DownloadUrl(t.name, t.version) && s.dest == ZipPath(t.name, t.version))
      && (s.Erase? ==> s.dir == ExpansionDir(t.name))
      && (s.Extract? ==> s.source == ZipPath(t.name, t.version) && s.dest == ExpansionDir(t.name))
  {
  }

  /** With the extraction error reported, every task completes exactly once,
      as its final step. */
  lemma CorrectedCompletesExactlyOnce(t: Task, env: Env)
    ensures var tr := RunTaskCorrected(t, env);
      && |Completions(tr)| == 1
      && |tr| >= 1 && tr[|tr| - 1].Complete?
      && (forall k :: 0 <= k < |tr| - 1 ==> !tr[k].Complete?)
  {
    StepsCompletions(t, env, true);
  }

  /** The correction changes nothing but the missing callback call after a
      failed extraction. */
  lemma CorrectionOnlyAddsExtractError(t: Task, env: Env)
    ensures RunTaskCorrected(t, env)
      == RunTask(t, env)
         + (if ReachesExtraction(t, env) && !env.extractOk then [Complete(Failed(ExtractFailed))] else [])
  {
  }

}
