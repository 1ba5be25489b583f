/** Compaction shortens the manifest without changing what later queries see. */
module ManifestProofs {
  import opened Common
  import opened Manifest

  /** `idx` places the records of `part`, in order, in `whole`. */
  ghost predicate Embeds(part: seq<Record>, whole: seq<Record>, idx: seq<nat>) {
    && |idx| == |part|
    && (forall j | 0 <= j < |idx| :: idx[j] < |whole| && part[j] == whole[idx[j]])
    && (forall j, k | 0 <= j < k < |idx| :: idx[j] < idx[k])
  }

  lemma EmbedsSnoc(part: seq<Record>, whole: seq<Record>, idx: seq<nat>, i: nat)
    requires Embeds(part, whole, idx) && i < |whole| && forall j | 0 <= j < |idx| :: idx[j] < i
    ensures Embeds(part + [whole[i]], whole, idx + [i])
  {
  }

  /** The kept indexes below `n`, in order. */
  function Places(keep: set<nat>, n: nat): seq<nat> {
    if n == 0 then [] else Places(keep, n - 1) + (if n - 1 in keep then [n - 1] else [])
  }

  lemma {:induction false} PlacesKept(keep: set<nat>, n: nat)
    ensures forall j | 0 <= j < |Places(keep, n)| ::
              Places(keep, n)[j] in keep && |Places(keep, n)| - j <= n - Places(keep, n)[j]
  {
    if n > 0 {
      PlacesKept(keep, n - 1);
    }
  }

  lemma {:induction false} SelectEmbeds(log: seq<Record>, keep: set<nat>, n: nat)
    requires n <= |log|
    ensures Embeds(Select(log, keep, n), log, Places(keep, n))
    ensures forall j | 0 <= j < |Places(keep, n)| :: Places(keep, n)[j] < n
  {
    if n > 0 {
      SelectEmbeds(log, keep, n - 1);
      if n - 1 in keep {
        EmbedsSnoc(Select(log, keep, n - 1), log, Places(keep, n - 1), n - 1);
      }
    }
  }

  lemma {:induction false} SelectSuffix(log: seq<Record>, keep: set<nat>, m: nat, n: nat)
    requires m <= n <= |log| && forall i: nat | m <= i < n :: i in keep
    ensures Select(log, keep, n) == Select(log, keep, m) + log[m..n]
  {
    if m < n {
      SelectSuffix(log, keep, m, n - 1);
      assert log[m..n] == log[m..n - 1] + [log[n - 1]];
    }
  }

  /** The result is a subsequence of the log and ends with its most recent records. */
  lemma CompactionIsSubsequence(log: seq<Record>, w: World, minRecords: nat, keepRecent: nat)
    ensures var c := Compacted(log, w, minRecords, keepRecent);
            && (exists idx :: Embeds(c, log, idx))
            && (var n := Min(keepRecent, |log|); n <= |c| && c[|c| - n..] == log[|log| - n..])
  {
    if |log| < minRecords {
      assert Embeds(log, log, seq(|log|, j requires 0 <= j => j as nat));
    } else {
      var keep := KeepIndexes(log, w, keepRecent);
      RecentKept(log, w, keepRecent);
      hide Kept, KeepIndexes, Select, Embeds, Places;
      SelectEmbeds(log, keep, |log|);
      assert Embeds(Compacted(log, w, minRecords, keepRecent), log, Places(keep, |log|));
      var recent := |log| - Min(keepRecent, |log|);
      SelectSuffix(log, keep, recent, |log|);
      assert log[recent..|log|] == log[recent..];
    }
  }

  lemma RecentKept(log: seq<Record>, w: World, keepRecent: nat)
    ensures forall i: nat | |log| - keepRecent <= i < |log| :: i in KeepIndexes(log, w, keepRecent)
  {
    hide Protected, Terminal, ProtectedKeys;
  }

  /** The launch is of a registered server, or of a process that is running. */
  predicate LaunchInUse(r: Record, w: World) {
    r.event == "launched" && (r.serverId in w.active || (r.pid > 0 && r.pid in w.live))
  }

  /** The record is recent, or a launch in use, or says that a process with such a launch has ended. */
  predicate Needed(log: seq<Record>, i: nat, w: World, keepRecent: nat)
    requires i < |log|
  {
    var r := log[i];
    || i + keepRecent >= |log|
    || LaunchInUse(r, w)
    || (r.event in {"idle_shutdown_signal_sent", "orphan_shutdown_signal_sent", "process_not_alive_cleanup"}
        && exists l | l in log ::
             LaunchInUse(l, w) && l.serverId == r.serverId && l.roomId == r.roomId && l.pid == r.pid)
  }

  lemma {:induction false} PlacesExactly(keep: set<nat>, n: nat)
    ensures forall i: nat :: i in Places(keep, n) <==> i < n && i in keep
  {
    if n > 0 {
      PlacesExactly(keep, n - 1);
    }
  }

  lemma KeptExactly(log: seq<Record>, i: nat, w: World, keepRecent: nat)
    requires i < |log|
    ensures Kept(log, i, w, keepRecent) <==> Needed(log, i, w, keepRecent)
  {
    forall r ensures Protected(r, w) <==> LaunchInUse(r, w) {
    }
    hide Protected, LaunchInUse;
  }

  /** A log that is long enough to be compacted keeps exactly the records that are needed, in their order. */
  lemma CompactionKeepsExactly(log: seq<Record>, w: World, minRecords: nat, keepRecent: nat) returns (idx: seq<nat>)
    requires |log| >= minRecords
    ensures Embeds(Compacted(log, w, minRecords, keepRecent), log, idx)
    ensures forall i: nat | i < |log| :: i in idx <==> Needed(log, i, w, keepRecent)
  {
    hide Kept, Needed;
    var keep := KeepIndexes(log, w, keepRecent);
    SelectEmbeds(log, keep, |log|);
    PlacesExactly(keep, |log|);
    idx := Places(keep, |log|);
    forall i: nat | i < |log| ensures i in idx <==> Needed(log, i, w, keepRecent) {
      KeptExactly(log, i, w, keepRecent);
    }
  }

  /** A search that every kept-out record fails finds the same record. */
  lemma {:induction false} SelectLatestLaunch(
    log: seq<Record>, keep: set<nat>, n: nat, serverId: string, roomId: string)
    requires n <= |log|
    requires forall i: nat | i < n && LaunchOf(log[i], serverId, roomId) :: i in keep
    ensures LatestLaunch(Select(log, keep, n), serverId, roomId) == LatestLaunch(log[..n], serverId, roomId)
  {
    hide LatestLaunch, LaunchOf;
    if n > 0 {
      SelectLatestLaunch(log, keep, n - 1, serverId, roomId);
      var init, r := Select(log, keep, n - 1), log[n - 1];
      assert log[..n] == log[..n - 1] + [r];
      LatestLaunchSnoc(log[..n - 1], r, serverId, roomId);
      if n - 1 in keep {
        assert Select(log, keep, n) == init + [r];
        LatestLaunchSnoc(init, r, serverId, roomId);
      } else {
        assert Select(log, keep, n) == init;
      }
    } else {
      assert Select(log, keep, 0) == log[..0];
    }
  }

  lemma LatestLaunchSnoc(log: seq<Record>, r: Record, serverId: string, roomId: string)
    ensures LatestLaunch(log + [r], serverId, roomId)
         == if LaunchOf(r, serverId, roomId) then Some(r) else LatestLaunch(log, serverId, roomId)
  {
    assert (log + [r])[..|log|] == log;
  }

  /** Every registered server still finds its own latest launch. */
  lemma CompactionKeepsLatestLaunch(
    log: seq<Record>, w: World, minRecords: nat, keepRecent: nat, serverId: string, roomId: string)
    requires serverId in w.active
    ensures LatestLaunch(Compacted(log, w, minRecords, keepRecent), serverId, roomId) ==
      LatestLaunch(log, serverId, roomId)
  {
    if |log| >= minRecords {
      SelectLatestLaunch(log, KeepIndexes(log, w, keepRecent), |log|, serverId, roomId);
      assert log[..|log|] == log;
    }
  }

  lemma ProtectedKeysKept(log: seq<Record>, w: World, minRecords: nat, keepRecent: nat)
    ensures ProtectedKeys(Compacted(log, w, minRecords, keepRecent), w) == ProtectedKeys(log, w)
  {
    if |log| >= minRecords {
      SelectShape(log, KeepIndexes(log, w, keepRecent), |log|);
      forall r | r in log && Protected(r, w) ensures r in Selected(log, w, keepRecent) {
        var i :| 0 <= i < |log| && log[i] == r;
        assert Kept(log, i, w, keepRecent);
      }
    }
  }

  /** Whether a process counts as finished is unchanged for every launched process that runs or is registered. */
  lemma CompactionKeepsTerminalKeys(log: seq<Record>, w: World, minRecords: nat, keepRecent: nat, key: ProcessKey)
    requires key in ProtectedKeys(log, w)
    ensures key in TerminalKeys(Compacted(log, w, minRecords, keepRecent)) <==> key in TerminalKeys(log)
  {
    if |log| >= minRecords {
      SelectShape(log, KeepIndexes(log, w, keepRecent), |log|);
      if key in TerminalKeys(log) {
        var r :| r in log && Terminal(r) && KeyOf(r) == key;
        var i :| 0 <= i < |log| && log[i] == r;
        assert Kept(log, i, w, keepRecent);
        assert r in Selected(log, w, keepRecent);
      }
    }
  }

  /** Compacting a compacted log changes nothing. */
  lemma CompactionIsIdempotent(log: seq<Record>, w: World, minRecords: nat, keepRecent: nat)
    ensures var c := Compacted(log, w, minRecords, keepRecent); Compacted(c, w, minRecords, keepRecent) == c
  {
    var c := Compacted(log, w, minRecords, keepRecent);
    if |log| >= minRecords && |c| >= minRecords {
      ProtectedKeysKept(log, w, minRecords, keepRecent);
      var keep := KeepIndexes(log, w, keepRecent);
      var idx := Places(keep, |log|);
      PlacesKept(keep, |log|);
      SelectEmbeds(log, keep, |log|);
      forall j: nat | j < |c| ensures Kept(c, j, w, keepRecent) {
        assert Kept(log, idx[j], w, keepRecent);
        assert |idx| - j <= |log| - idx[j];
      }
      SelectFull(c, KeepIndexes(c, w, keepRecent), |c|);
      assert c[..|c|] == c;
    }
  }
}
