/**
 The process manifest: an append-only log of launches and shutdowns, the queries
 that read it, and the compaction that shortens it.
 */
module Manifest {
  import opened Common

  datatype Record = Record(event: string, serverId: string, roomId: string, pid: int)

  /** What identifies a process in the manifest. */
  datatype ProcessKey = ProcessKey(serverId: string, roomId: string, pid: int)

  const LAUNCHED := "launched"
  const IDLE_SHUTDOWN := "idle_shutdown_signal_sent"
  const ORPHAN_SHUTDOWN := "orphan_shutdown_signal_sent"
  const NOT_ALIVE := "process_not_alive_cleanup"

  predicate Launched(r: Record) {
    r.event == LAUNCHED
  }

  predicate Terminal(r: Record) {
    r.event in {IDLE_SHUTDOWN, ORPHAN_SHUTDOWN, NOT_ALIVE}
  }

  function KeyOf(r: Record): ProcessKey {
    ProcessKey(r.serverId, r.roomId, r.pid)
  }

  /** A pid names a live process only when it is positive. */
  predicate Alive(live: set<int>, pid: int) {
    pid > 0 && pid in live
  }

  // ---- queries ----

  function TerminalKeys(log: seq<Record>): set<ProcessKey> {
    set r | r in log && Terminal(r) :: KeyOf(r)
  }

  method BuildTerminalManifestProcessKeys(log: seq<Record>) returns (keys: set<ProcessKey>)
    ensures keys == TerminalKeys(log)
  {
    keys := {};
    for i := 0 to |log|
      invariant keys == TerminalKeys(log[..i])
    {
      assert log[..i + 1] == log[..i] + [log[i]];
      if Terminal(log[i]) {
        keys := keys + {KeyOf(log[i])};
      }
    }
    assert log[..|log|] == log;
  }

  /** Whether `r` is a launch of the server, in its room when the server has one. */
  predicate LaunchOf(r: Record, serverId: string, roomId: string) {
    Launched(r) && r.serverId == serverId && (roomId != "" ==> r.roomId == roomId)
  }

  function LatestLaunch(log: seq<Record>, serverId: string, roomId: string): Option<Record> {
    if log == [] then None
    else if LaunchOf(log[|log| - 1], serverId, roomId) then Some(log[|log| - 1])
    else LatestLaunch(log[..|log| - 1], serverId, roomId)
  }

  method FindLatestLaunchRecord(log: seq<Record>, serverId: string, roomId: string) returns (found: Option<Record>)
    ensures found == LatestLaunch(log, serverId, roomId)
  {
    var index := |log|;
    assert log[..index] == log;
    while index > 0
      invariant 0 <= index <= |log|
      invariant LatestLaunch(log[..index], serverId, roomId) == LatestLaunch(log, serverId, roomId)
    {
      index := index - 1;
      assert log[..index + 1][..index] == log[..index];
      if LaunchOf(log[index], serverId, roomId) {
        return Some(log[index]);
      }
    }
    return None;
  }

  /** What the search returns: the last launch of the server, or nothing when there is none. */
  lemma {:induction false} LatestLaunchIsLast(log: seq<Record>, serverId: string, roomId: string)
    ensures var found := LatestLaunch(log, serverId, roomId);
            if found.None? then forall r | r in log :: !LaunchOf(r, serverId, roomId)
            else exists i | 0 <= i < |log| ::
              log[i] == found.value && LaunchOf(log[i], serverId, roomId)
              && forall j | i < j < |log| :: !LaunchOf(log[j], serverId, roomId)
  {
    if log == [] {
    } else {
      var init, last := log[..|log| - 1], log[|log| - 1];
      assert log == init + [last];
      if !LaunchOf(last, serverId, roomId) {
        LatestLaunchIsLast(init, serverId, roomId);
        if LatestLaunch(init, serverId, roomId).Some? {
          var i :| 0 <= i < |init| && init[i] == LatestLaunch(init, serverId, roomId).value
            && LaunchOf(init[i], serverId, roomId)
            && forall j | i < j < |init| :: !LaunchOf(init[j], serverId, roomId);
          assert log[i] == init[i];
          forall j | i < j < |log| ensures !LaunchOf(log[j], serverId, roomId) {
            assert j < |init| ==> log[j] == init[j];
          }
        }
      }
    }
  }

  // ---- compaction ----

  /** The servers the registry knows and the pids that are running. */
  datatype World = World(active: set<string>, live: set<int>)

  /** A launch that must survive: of a registered server or of a running process. */
  predicate Protected(r: Record, w: World) {
    Launched(r) && (r.serverId in w.active || Alive(w.live, r.pid))
  }

  ghost function ProtectedKeys(log: seq<Record>, w: World): set<ProcessKey> {
    set r | r in log && Protected(r, w) :: KeyOf(r)
  }

  ghost predicate Kept(log: seq<Record>, i: nat, w: World, keepRecent: nat)
    requires i < |log|
  {
    || i >= |log| - keepRecent
    || Protected(log[i], w)
    || (Terminal(log[i]) && KeyOf(log[i]) in ProtectedKeys(log, w))
  }

  ghost function KeepIndexes(log: seq<Record>, w: World, keepRecent: nat): set<nat> {
    set i: nat | 0 <= i < |log| && Kept(log, i, w, keepRecent)
  }

  /** The first `n` records at the kept indexes, in order. */
  function Select(log: seq<Record>, keep: set<nat>, n: nat): seq<Record>
    requires n <= |log|
  {
    if n == 0 then [] else Select(log, keep, n - 1) + (if n - 1 in keep then [log[n - 1]] else [])
  }

  ghost function Selected(log: seq<Record>, w: World, keepRecent: nat): seq<Record> {
    Select(log, KeepIndexes(log, w, keepRecent), |log|)
  }

  /** The log after a compaction run: untouched while it is short. */
  ghost function Compacted(log: seq<Record>, w: World, minRecords: nat, keepRecent: nat): seq<Record> {
    if |log| < minRecords then log else Selected(log, w, keepRecent)
  }

  method CompactProcessManifestRecords(log: seq<Record>, w: World, minRecords: nat, keepRecent: nat)
    returns (result: seq<Record>, changed: bool)
    ensures result == Compacted(log, w, minRecords, keepRecent)
    ensures changed <==> |result| < |log|
    ensures !changed ==> result == log
  {
    if |log| < minRecords {
      return log, false;
    }
    var keepIndexes: set<nat> := {};
    var liveProcessKeys: set<ProcessKey> := {};
    var activeProcessKeys: set<ProcessKey> := {};
    var recentStart := Max(0, |log| - keepRecent);
    for index := recentStart to |log|
      invariant forall i: nat :: i in keepIndexes <==> recentStart <= i < index
    {
      keepIndexes := keepIndexes + {index};
    }
    for index := 0 to |log|
      invariant keepIndexes == set i: nat | 0 <= i < |log| && (i >= recentStart || (i < index && Protected(log[i], w)))
      invariant liveProcessKeys + activeProcessKeys == ProtectedKeys(log[..index], w)
    {
      var record := log[index];
      ProtectedKeysStep(log, index, w);
      if Launched(record) {
        if record.serverId in w.active {
          keepIndexes := keepIndexes + {index};
          activeProcessKeys := activeProcessKeys + {KeyOf(record)};
        }
        if Alive(w.live, record.pid) {
          keepIndexes := keepIndexes + {index};
          liveProcessKeys := liveProcessKeys + {KeyOf(record)};
        }
      }
    }
    assert log[..|log|] == log;
    for index := 0 to |log|
      invariant keepIndexes == set i: nat | 0 <= i < |log| &&
        (i >= recentStart || Protected(log[i], w)
          || (i < index && Terminal(log[i]) && KeyOf(log[i]) in ProtectedKeys(log, w)))
    {
      var processKey := KeyOf(log[index]);
      if Terminal(log[index]) && (processKey in liveProcessKeys || processKey in activeProcessKeys) {
        keepIndexes := keepIndexes + {index};
      }
    }
    assert keepIndexes == KeepIndexes(log, w, keepRecent);
    result := Select(log, keepIndexes, |log|);
    SelectShape(log, keepIndexes, |log|);
    if |result| >= |log| {
      assert result == log by { SelectFull(log, keepIndexes, |log|); }
      return log, false;
    }
    changed := true;
  }

  lemma ProtectedKeysStep(log: seq<Record>, i: nat, w: World)
    requires i < |log|
    ensures ProtectedKeys(log[..i + 1], w)
         == ProtectedKeys(log[..i], w) + (if Protected(log[i], w) then {KeyOf(log[i])} else {})
  {
    assert log[..i + 1] == log[..i] + [log[i]];
  }

  lemma {:induction false} SelectShape(log: seq<Record>, keep: set<nat>, n: nat)
    requires n <= |log|
    ensures |Select(log, keep, n)| <= n
    ensures forall r | r in Select(log, keep, n) :: exists i: nat :: i < n && i in keep && log[i] == r
    ensures forall i: nat | i < n && i in keep :: log[i] in Select(log, keep, n)
  {
    if n > 0 {
      SelectShape(log, keep, n - 1);
    }
  }

  lemma {:induction false} SelectFull(log: seq<Record>, keep: set<nat>, n: nat)
    requires n <= |log| && (|Select(log, keep, n)| == n || forall i: nat | i < n :: i in keep)
    ensures Select(log, keep, n) == log[..n]
  {
    if n > 0 {
      SelectShape(log, keep, n - 1);
      SelectFull(log, keep, n - 1);
    }
  }
}
