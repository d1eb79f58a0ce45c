/** Task selection: which packages of a freshly fetched registry are
    (re)installed, and how.  A package is selected when the previously saved
    registry does not list it or lists a different version; a selected
    package whose archive is already cached is only re-expanded, any other
    is downloaded first. */
module Diff {

  import opened Wrappers
  import opened Naming

  /** One registry entry: a package name and its `metadata.version`. */
  datatype Entry = Entry(name: string, version: string)

  /** How a selected package is brought up to date. */
  datatype Kind = DeleteAndExpand | DownloadAndExpand

  datatype Task = Task(kind: Kind, name: string, version: string)

  /** A registry is a JSON object: its keys are distinct. */
  predicate DistinctNames(reg: seq<Entry>)
  {
    forall i, j :: 0 <= i < j < |reg| ==> reg[i].name != reg[j].name
  }

  /** The version the registry lists for `n`, if any (the last entry wins, as
      for a JSON object with a repeated key). */
  function Lookup(reg: seq<Entry>, n: string): (v: Option<string>)
    ensures v.Some? ==> Entry(n, v.value) in reg
    ensures v.None? ==> forall e :: e in reg ==> e.name != n
  {
    if reg == [] then None
    else if reg[|reg| - 1].name == n then Some(reg[|reg| - 1].version)
    else
      var v := Lookup(reg[..|reg| - 1], n);
      assert forall e :: e in reg[..|reg| - 1] ==> e in reg;
      assert forall e :: e in reg ==> e in reg[..|reg| - 1] || e == reg[|reg| - 1];
      v
  }

  /** The saved form of a registry, as the next run reads it back: name to version. */
  function Snapshot(reg: seq<Entry>): (m: map<string, string>)
    ensures forall n :: n in m <==> Lookup(reg, n).Some?
    ensures forall n :: n in m ==> Lookup(reg, n) == Some(m[n])
  {
    if reg == [] then map[]
    else Snapshot(reg[..|reg| - 1])[reg[|reg| - 1].name := reg[|reg| - 1].version]
  }

  /** The selection rule: the last registry has no entry for the package, or
      records a different version. */
  predicate NeedsUpdate(last: map<string, string>, e: Entry)
  {
    e.name !in last || last[e.name] != e.version
  }

  /** The task for a selected package: re-expand when its archive is cached,
      download otherwise. */
  function Classify(e: Entry, archives: set<string>): (t: Task)
    ensures t.name == e.name && t.version == e.version
    ensures t.kind == DeleteAndExpand <==> ZipPath(e.name, e.version) in archives
  {
    if ZipPath(e.name, e.version) in archives then Task(DeleteAndExpand, e.name, e.version)
    else Task(DownloadAndExpand, e.name, e.version)
  }

  /** The tasks of one run, in registry key order. */
  function ComputeTasks(reg: seq<Entry>, last: map<string, string>, archives: set<string>): (r: seq<Task>)
    ensures |r| <= |reg|
    ensures forall t :: t in r ==>
      && Entry(t.name, t.version) in reg
      && NeedsUpdate(last, Entry(t.name, t.version))
      && (t.kind == DeleteAndExpand <==> ZipPath(t.name, t.version) in archives)
  {
    if reg == [] then []
    else
      var init := ComputeTasks(reg[..|reg| - 1], last, archives);
      var e := reg[|reg| - 1];
      assert forall x :: x in reg[..|reg| - 1] ==> x in reg;
      if NeedsUpdate(last, e) then init + [Classify(e, archives)] else init
  }

  /** The registry positions that produce a task, in increasing order. */
  function Selected(reg: seq<Entry>, last: map<string, string>): (ix: seq<nat>)
    ensures forall k :: 0 <= k < |ix| ==> ix[k] < |reg|
  {
    if reg == [] then []
    else
      var init := Selected(reg[..|reg| - 1], last);
      if NeedsUpdate(last, reg[|reg| - 1]) then init + [|reg| - 1] else init
  }

  /** The tasks are exactly the selected registry entries, classified, in
      registry order: the k-th task comes from the k-th selected position. */
  lemma {:induction false} TasksAreSelectedEntries(reg: seq<Entry>, last: map<string, string>, archives: set<string>)
    ensures var ts, ix := ComputeTasks(reg, last, archives), Selected(reg, last);
      && |ix| == |ts|
      && (forall k :: 0 <= k < |ts| ==> ts[k] == Classify(reg[ix[k]], archives))
  {
    if reg != [] {
      var pre := reg[..|reg| - 1];
      TasksAreSelectedEntries(pre, last, archives);
      assert forall i :: 0 <= i < |pre| ==> pre[i] == reg[i];
    }
  }

  predicate StrictlyIncreasing(ix: seq<nat>)
  {
    forall k1, k2 :: 0 <= k1 < k2 < |ix| ==> ix[k1] < ix[k2]
  }

  /** Selected positions increase strictly, so tasks keep registry key order. */
  lemma {:induction false} SelectedIncreasing(reg: seq<Entry>, last: map<string, string>)
    ensures StrictlyIncreasing(Selected(reg, last))
  {
    if reg != [] {
      var pre := reg[..|reg| - 1];
      SelectedIncreasing(pre, last);
      var init := Selected(pre, last);
      if NeedsUpdate(last, reg[|reg| - 1]) {
        var ix := init + [|reg| - 1];
        assert forall k :: 0 <= k < |init| ==> ix[k] == init[k] < |reg| - 1;
      }
    }
  }

  /** Position `i` is selected iff its entry needs an update. */
  lemma {:induction false} SelectedExactly(reg: seq<Entry>, last: map<string, string>)
    ensures var ix := Selected(reg, last);
      forall i :: 0 <= i < |reg| ==> (NeedsUpdate(last, reg[i]) <==> i in ix)
  {
    if reg != [] {
      var pre := reg[..|reg| - 1];
      SelectedExactly(pre, last);
      assert forall i :: 0 <= i < |pre| ==> pre[i] == reg[i];
    }
  }

  /** The whole characterisation: the tasks are the entries needing an
      update, classified, in registry order. */
  lemma TasksFollowRegistry(reg: seq<Entry>, last: map<string, string>, archives: set<string>)
    ensures var ts, ix := ComputeTasks(reg, last, archives), Selected(reg, last);
      && |ix| == |ts|
      && (forall k :: 0 <= k < |ts| ==> ts[k] == Classify(reg[ix[k]], archives))
      && StrictlyIncreasing(ix)
      && (forall i :: 0 <= i < |reg| ==> (NeedsUpdate(last, reg[i]) <==> i in ix))
  {
    TasksAreSelectedEntries(reg, last, archives);
    SelectedIncreasing(reg, last);
    SelectedExactly(reg, last);
  }

  /** Distinct registry names give distinct task names. */
  lemma TaskNamesDistinct(reg: seq<Entry>, last: map<string, string>, archives: set<string>)
    requires DistinctNames(reg)
    ensures var ts := ComputeTasks(reg, last, archives);
      forall k1, k2 :: 0 <= k1 < k2 < |ts| ==> ts[k1].name != ts[k2].name
  {
    TasksFollowRegistry(reg, last, archives);
  }

  /** The tasks named `n`, in order. */
  function TasksNamed(ts: seq<Task>, n: string): (r: seq<Task>)
    ensures |r| <= |ts|
    ensures forall t :: t in r ==> t in ts && t.name == n
  {
    if ts == [] then []
    else
      var init := TasksNamed(ts[..|ts| - 1], n);
      assert forall x :: x in ts[..|ts| - 1] ==> x in ts;
      if ts[|ts| - 1].name == n then init + [ts[|ts| - 1]] else init
  }

  lemma {:induction false} TasksNamedAppend(ts: seq<Task>, t: Task, n: string)
    ensures TasksNamed(ts + [t], n) == TasksNamed(ts, n) + (if t.name == n then [t] else [])
  {
    assert (ts + [t])[..|ts|] == ts;
  }

  /** The tasks a single name receives: none when the registry does not list
      it; otherwise one, classified by archive presence, exactly when the last
      registry lacks it or lists another version. */
  lemma {:induction false} TasksForName(reg: seq<Entry>, last: map<string, string>, archives: set<string>, n: string)
    requires DistinctNames(reg)
    ensures var ts := TasksNamed(ComputeTasks(reg, last, archives), n);
      match Lookup(reg, n)
      case None => ts == []
      case Some(v) => ts == (if NeedsUpdate(last, Entry(n, v)) then [Classify(Entry(n, v), archives)] else [])
  {
    if reg != [] {
      var pre, e := reg[..|reg| - 1], reg[|reg| - 1];
      assert DistinctNames(pre);
      TasksForName(pre, last, archives, n);
      var init := ComputeTasks(pre, last, archives);
      if NeedsUpdate(last, e) {
        TasksNamedAppend(init, Classify(e, archives), n);
      }
      if e.name == n {
        assert forall x :: x in pre ==> x.name != n;
        assert Lookup(pre, n) == None;
      }
    }
  }

  /** Under distinct names, the entry at position `i` is what `Lookup` finds. */
  lemma {:induction false} LookupAt(reg: seq<Entry>, i: nat)
    requires DistinctNames(reg)
    requires i < |reg|
    ensures Lookup(reg, reg[i].name) == Some(reg[i].version)
  {
    if i < |reg| - 1 {
      var pre := reg[..|reg| - 1];
      assert DistinctNames(pre);
      assert pre[i] == reg[i];
      LookupAt(pre, i);
    }
  }

  /** A package the last registry does not list gets exactly one task. */
  lemma AbsentNameGivesOneTask(reg: seq<Entry>, last: map<string, string>, archives: set<string>, i: nat)
    requires DistinctNames(reg)
    requires i < |reg|
    requires reg[i].name !in last
    ensures TasksNamed(ComputeTasks(reg, last, archives), reg[i].name) == [Classify(reg[i], archives)]
  {
    LookupAt(reg, i);
    TasksForName(reg, last, archives, reg[i].name);
  }

  /** A package whose version is unchanged gets no task, whatever the archive
      cache holds. */
  lemma UnchangedVersionGivesNoTask(reg: seq<Entry>, last: map<string, string>, archives: set<string>, i: nat)
    requires DistinctNames(reg)
    requires i < |reg|
    requires reg[i].name in last && last[reg[i].name] == reg[i].version
    ensures TasksNamed(ComputeTasks(reg, last, archives), reg[i].name) == []
  {
    LookupAt(reg, i);
    TasksForName(reg, last, archives, reg[i].name);
  }

  /** A registry compared with its own snapshot selects nothing. */
  lemma NoTasksAgainstOwnSnapshot(reg: seq<Entry>, archives: set<string>)
    requires DistinctNames(reg)
    ensures ComputeTasks(reg, Snapshot(reg), archives) == []
  {
    var snap := Snapshot(reg);
    forall e | e in reg
      ensures !NeedsUpdate(snap, e)
    {
      var i :| 0 <= i < |reg| && reg[i] == e;
      LookupAt(reg, i);
    }
    NothingSelected(reg, snap, archives);
  }

  /** When no entry needs an update there are no tasks. */
  lemma {:induction false} NothingSelected(reg: seq<Entry>, last: map<string, string>, archives: set<string>)
    requires forall e :: e in reg ==> !NeedsUpdate(last, e)
    ensures ComputeTasks(reg, last, archives) == []
  {
    if reg != [] {
      var pre := reg[..|reg| - 1];
      assert forall e :: e in pre ==> e in reg;
      assert reg[|reg| - 1] in reg;
      NothingSelected(pre, last, archives);
    }
  }

  /** The literal forEach/push loop of the source computes the same tasks. */
  method ComputeTasksLoop(reg: seq<Entry>, last: map<string, string>, archives: set<string>) returns (tasks: seq<Task>)
    ensures tasks == ComputeTasks(reg, last, archives)
  {
    tasks := [];
    var i := 0;
    while i < |reg|
      invariant i <= |reg|
      invariant tasks == ComputeTasks(reg[..i], last, archives)
    {
      var e := reg[i];
      assert reg[..i + 1][..i] == reg[..i];
      if NeedsUpdate(last, e) {
        tasks := tasks + [Classify(e, archives)];
      }
      i := i + 1;
    }
    assert reg[..i] == reg;
  }

}
