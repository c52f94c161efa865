/** Execution snapshots: what a run produced for a task version, and which snapshot of a task is current. */
module Snapshots {
  import opened Basics

  datatype Validity = CURRENT | REUSABLE | SUPERSEDED | INVALIDATED

  /** `artifacts` stands for the eight artifact ids a snapshot carries unchanged. */
  datatype Snapshot = Snapshot(
    snapshotId: Id, taskId: Id, taskVersion: int, artifacts: Id, isCurrent: bool, validity: Validity)

  datatype Snaps = Snaps(snapshots: map<Id, Snapshot>, current: map<Id, Id>)
  {
    function Current(taskId: Id): Option<Snapshot> {
      if taskId in current && current[taskId] in snapshots then Some(snapshots[current[taskId]]) else None
    }
  }

  const NO_SNAPSHOTS := Snaps(map[], map[])

  function Saved(s: Snaps, v: Snapshot): Snaps {
    s.(snapshots := s.snapshots[v.snapshotId := v])
  }

  function PromoteStep(s: Snaps, v: Snapshot, currentTaskVersion: int): (Snaps, bool) {
    if v.taskVersion != currentTaskVersion then (Saved(s, v.(isCurrent := false, validity := SUPERSEDED)), false)
    else
      var previous := s.Current(v.taskId);
      var s1 := if previous.Some? then Saved(s, previous.value.(isCurrent := false, validity := REUSABLE)) else s;
      var s2 := Saved(s1, v.(isCurrent := true, validity := CURRENT));
      (s2.(current := s.current[v.taskId := v.snapshotId]), true)
  }

  class SnapshotRepository {
    var snapshots: map<Id, Snapshot>
    var current: map<Id, Id>

    ghost function Abstract(): Snaps
      reads this
    {
      Snaps(snapshots, current)
    }

    constructor ()
      ensures Abstract() == NO_SNAPSHOTS
    {
      snapshots, current := map[], map[];
    }

    method Save(v: Snapshot)
      modifies this`snapshots
      ensures Abstract() == Saved(old(Abstract()), v)
    {
      snapshots := snapshots[v.snapshotId := v];
    }

    method Current(taskId: Id) returns (v: Option<Snapshot>)
      ensures v == Abstract().Current(taskId)
    {
      if taskId !in current || current[taskId] !in snapshots {
        return None;
      }
      return Some(snapshots[current[taskId]]);
    }

    method Promote(v: Snapshot, currentTaskVersion: int) returns (promoted: bool)
      modifies this
      ensures (Abstract(), promoted) == PromoteStep(old(Abstract()), v, currentTaskVersion)
    {
      if v.taskVersion != currentTaskVersion {
        Save(v.(isCurrent := false, validity := SUPERSEDED));
        return false;
      }
      var previous := Current(v.taskId);
      if previous.Some? {
        Save(previous.value.(isCurrent := false, validity := REUSABLE));
      }
      Save(v.(isCurrent := true, validity := CURRENT));
      current := current[v.taskId := v.snapshotId];
      return true;
    }
  }

  /** Each task has at most one snapshot marked current, and it is the one its current entry names. */
  ghost predicate OneCurrent(s: Snaps) {
    && (forall sid <- s.snapshots :: s.snapshots[sid].snapshotId == sid)
    && (forall t <- s.current ::
          var sid := s.current[t];
          sid in s.snapshots && s.snapshots[sid].taskId == t && s.snapshots[sid].isCurrent && s.snapshots[sid].validity == CURRENT)
    && (forall sid <- s.snapshots :: s.snapshots[sid].isCurrent || s.snapshots[sid].validity == CURRENT ==>
          s.snapshots[sid].taskId in s.current && s.current[s.snapshots[sid].taskId] == sid)
  }

  lemma SavingAsideKeepsOneCurrent(s: Snaps, v: Snapshot)
    requires OneCurrent(s) && v.snapshotId !in s.snapshots && !v.isCurrent && v.validity != CURRENT
    ensures OneCurrent(Saved(s, v))
  {
  }

  /** Promoting a new snapshot demotes the previous one; promoting against another version changes no current entry. */
  lemma PromoteKeepsOneCurrent(s: Snaps, v: Snapshot, currentTaskVersion: int)
    requires OneCurrent(s) && v.snapshotId !in s.snapshots
    ensures var (s', promoted) := PromoteStep(s, v, currentTaskVersion);
            OneCurrent(s')
            && (promoted <==> v.taskVersion == currentTaskVersion)
            && (forall t :: t != v.taskId || !promoted ==> s'.Current(t) == s.Current(t))
            && (promoted ==> s'.Current(v.taskId) == Some(v.(isCurrent := true, validity := CURRENT)))
            && (promoted && s.Current(v.taskId).Some? ==>
                  Get(s'.snapshots, s.Current(v.taskId).value.snapshotId)
                  == Some(s.Current(v.taskId).value.(isCurrent := false, validity := REUSABLE)))
  {
    var (s', promoted) := PromoteStep(s, v, currentTaskVersion);
    if promoted && v.taskId in s.current {
      var sid := s.current[v.taskId];
      assert s.snapshots[sid].snapshotId == sid;
    }
  }
}
