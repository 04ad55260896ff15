/**
 * The Raft storage of a storage node, `StorageNodeFileStore`
 * (Storage/src/store/mod.rs): the log tree (entries keyed by the big-endian
 * bytes of their index), the metadata tree (vote and last purged log id),
 * the state machine, the snapshot counter and the cached snapshot. Blob
 * writes of applied entries go to the node's file system.
 */
module LogStore {
  import opened Common
  import opened BigEndian
  import opened Fs
  import opened FsIo
  import opened RaftTypes
  import opened LogRange
  import opened ApplySpec

  /** Every entry of the log tree is kept under its own index. */
  predicate KeyedByIndex(log: map<u64, Entry>) {
    forall k :: k in log ==> log[k].logId.index == k
  }

  /** The indices of a list of entries. */
  function IndicesOf(es: seq<Entry>): set<u64> {
    set i | 0 <= i < |es| :: es[i].logId.index
  }

  /** The log after inserting each entry under its index, in order. */
  function Appended(log: map<u64, Entry>, es: seq<Entry>): map<u64, Entry>
    decreases |es|
  {
    if es == [] then log
    else
      var e := es[|es| - 1];
      Appended(log, es[..|es| - 1])[e.logId.index := e]
  }

  /** After an append, an index that no entry carries is as before. */
  lemma {:induction false} AppendedLeavesOthers(log: map<u64, Entry>, es: seq<Entry>, k: u64)
    requires forall i :: 0 <= i < |es| ==> es[i].logId.index != k
    ensures k in Appended(log, es) <==> k in log
    ensures k in log ==> Appended(log, es)[k] == log[k]
    decreases |es|
  {
    if es != [] {
      var init := es[..|es| - 1];
      assert forall i :: 0 <= i < |init| ==> init[i] == es[i];
      AppendedLeavesOthers(log, init, k);
    }
  }

  /** After an append, an index holds the last entry that carries it. */
  lemma {:induction false} AppendedLastWins(log: map<u64, Entry>, es: seq<Entry>, i: nat)
    requires i < |es|
    requires forall j :: i < j < |es| ==> es[j].logId.index != es[i].logId.index
    ensures es[i].logId.index in Appended(log, es) && Appended(log, es)[es[i].logId.index] == es[i]
    decreases |es|
  {
    if i < |es| - 1 {
      var init := es[..|es| - 1];
      assert forall j :: 0 <= j < |init| ==> init[j] == es[j];
      AppendedLastWins(log, init, i);
    }
  }

  lemma {:induction false} AppendedKeyedByIndex(log: map<u64, Entry>, es: seq<Entry>)
    requires KeyedByIndex(log)
    ensures KeyedByIndex(Appended(log, es))
    decreases |es|
  {
    if es != [] {
      AppendedKeyedByIndex(log, es[..|es| - 1]);
    }
  }

  lemma {:induction false} GreatestKey(keys: set<u64>) returns (m: u64)
    requires keys != {}
    ensures m in keys && forall j :: j in keys ==> j <= m
    decreases keys
  {
    var x :| x in keys;
    if keys == {x} {
      m := x;
    } else {
      var m' := GreatestKey(keys - {x});
      m := if x < m' then m' else x;
      forall j | j in keys ensures j <= m {
        if j != x {
          assert j in keys - {x};
        }
      }
    }
  }

  lemma {:induction false} LeastKey(keys: set<u64>) returns (m: u64)
    requires keys != {}
    ensures m in keys && forall j :: j in keys ==> m <= j
    decreases keys
  {
    var x :| x in keys;
    if keys == {x} {
      m := x;
    } else {
      var m' := LeastKey(keys - {x});
      m := if x < m' then x else m';
      forall j | j in keys ensures m <= j {
        if j != x {
          assert j in keys - {x};
        }
      }
    }
  }

  /** A non-empty set of keys has a last key under sled's byte order. */
  lemma LastKeyExists(keys: set<u64>)
    requires keys != {}
    ensures exists k :: k in keys && forall j :: j in keys ==> j == k || LexLess(KeyOf(j), KeyOf(k))
  {
    var m := GreatestKey(keys);
    forall j | j in keys ensures j == m || LexLess(KeyOf(j), KeyOf(m)) {
      KeyOrder(j, m);
    }
  }

  /** A non-empty set of keys has a first key under sled's byte order. */
  lemma FirstKeyExists(keys: set<u64>)
    requires keys != {}
    ensures exists k :: k in keys && forall j :: j in keys ==> j == k || LexLess(KeyOf(k), KeyOf(j))
  {
    var m := LeastKey(keys);
    forall j | j in keys ensures j == m || LexLess(KeyOf(m), KeyOf(j)) {
      KeyOrder(m, j);
    }
  }

  lemma IndicesOfSnoc(es: seq<Entry>, e: Entry)
    ensures IndicesOf(es + [e]) == IndicesOf(es) + {e.logId.index}
  {
    var xs := es + [e];
    forall x | x in IndicesOf(xs) ensures x in IndicesOf(es) + {e.logId.index} {
      var i :| 0 <= i < |xs| && xs[i].logId.index == x;
      if i < |es| {
        assert xs[i] == es[i];
      }
    }
    forall x | x in IndicesOf(es) + {e.logId.index} ensures x in IndicesOf(xs) {
      if x == e.logId.index {
        assert xs[|es|] == e;
      } else {
        var i :| 0 <= i < |es| && es[i].logId.index == x;
        assert xs[i] == es[i];
      }
    }
  }

  /**
   * Where the scan of `try_get_log_entries` stands: the keys of the range
   * are either still pending or already gathered, and the entries gathered
   * come from the log in ascending index order, below every pending key.
   */
  ghost predicate Gathered(log: map<u64, Entry>, lo: Bound<Bytes>, hi: Bound<Bytes>, entries: seq<Entry>, pending: set<u64>) {
    && KeyedByIndex(log)
    && pending <= log.Keys
    && (forall k :: k in log && InKeyRange(KeyOf(k), lo, hi) <==> k in pending || k in IndicesOf(entries))
    && (forall k :: k in pending ==> k !in IndicesOf(entries))
    && (forall i :: 0 <= i < |entries| ==> entries[i].logId.index in log && log[entries[i].logId.index] == entries[i])
    && (forall i, j :: 0 <= i < j < |entries| ==> entries[i].logId.index < entries[j].logId.index)
    && (forall i, k :: 0 <= i < |entries| && k in pending ==> entries[i].logId.index < k)
  }

  /** Taking the first pending key in byte order keeps the scan in order. */
  lemma GatherStep(log: map<u64, Entry>, lo: Bound<Bytes>, hi: Bound<Bytes>, entries: seq<Entry>, pending: set<u64>, k: u64)
    requires Gathered(log, lo, hi, entries, pending)
    requires k in pending && forall j :: j in pending ==> j == k || LexLess(KeyOf(k), KeyOf(j))
    ensures Gathered(log, lo, hi, entries + [log[k]], pending - {k})
  {
    forall j | j in pending ensures k <= j {
      KeyOrder(k, j);
    }
    IndicesOfSnoc(entries, log[k]);
  }

  /** A finished scan holds exactly the entries of the index range, in ascending order. */
  lemma GatherDone(log: map<u64, Entry>, start: Bound<u64>, end: Bound<u64>, entries: seq<Entry>)
    requires Gathered(log, SerializeBound(start), SerializeBound(end), entries, {})
    ensures IndicesOf(entries) == set k | k in log && InIndexRange(k, start, end)
    ensures forall i :: 0 <= i < |entries| ==> entries[i].logId.index in log && log[entries[i].logId.index] == entries[i]
    ensures forall i, j :: 0 <= i < j < |entries| ==> entries[i].logId.index < entries[j].logId.index
  {
    forall k | k in log ensures InKeyRange(KeyOf(k), SerializeBound(start), SerializeBound(end)) <==> InIndexRange(k, start, end) {
      KeyRangeMatchesIndexRange(k, start, end);
    }
  }

  /**
   * The log without the keys a sled range selects: `range(..)` followed by
   * `remove` of each key found, in ascending key order.
   */
  method RemoveKeysInRange(log: map<u64, Entry>, lo: Bound<Bytes>, hi: Bound<Bytes>) returns (r: map<u64, Entry>)
    ensures r == map k | k in log && !InKeyRange(KeyOf(k), lo, hi) :: log[k]
  {
    var keys := set k | k in log && InKeyRange(KeyOf(k), lo, hi);
    ghost var selected := keys;
    r := log;
    while keys != {}
      invariant keys <= r.Keys
      invariant forall k :: k in r <==> k in log && (k in keys || k !in selected)
      invariant forall k :: k in r ==> r[k] == log[k]
      decreases keys
    {
      FirstKeyExists(keys);
      var k :| k in keys && forall j :: j in keys ==> j == k || LexLess(KeyOf(k), KeyOf(j));
      r := r - {k};
      keys := keys - {k};
    }
  }

  class StorageNodeFileStore {
    /** The log tree. */
    var log: map<u64, Entry>
    /** The meta tree's "meta-vote" slot. */
    var vote: Option<Vote>
    /** The meta tree's "last-purged" slot. */
    var lastPurgedLogId: Option<LogId>
    var stateMachine: StateMachine
    var snapshotIdx: nat
    var currentSnapshot: Option<Snapshot>
    /** Where applied blobs are written. */
    const fs: FileSystem
    const cfg: Config

    predicate Valid()
      reads this
    {
      KeyedByIndex(log)
    }

    /**
     * `open_create`: the log and meta trees are what the database at the
     * storage location holds; the state machine starts from its default,
     * the counter at 0, with no snapshot.
     */
    constructor OpenCreate(fs: FileSystem, cfg: Config, log: map<u64, Entry>, vote: Option<Vote>, lastPurgedLogId: Option<LogId>)
      requires KeyedByIndex(log)
      ensures Valid()
      ensures this.fs == fs && this.cfg == cfg
      ensures this.log == log && this.vote == vote && this.lastPurgedLogId == lastPurgedLogId
      ensures stateMachine == DEFAULT_STATE_MACHINE && snapshotIdx == 0 && currentSnapshot == None
    {
      this.fs := fs;
      this.cfg := cfg;
      this.log := log;
      this.vote := vote;
      this.lastPurgedLogId := lastPurgedLogId;
      stateMachine := DEFAULT_STATE_MACHINE;
      snapshotIdx := 0;
      currentSnapshot := None;
    }

    function GetLastPurgedLogId(): Option<LogId>
      reads this
    {
      lastPurgedLogId
    }

    method SetLastPurgedLogId(id: LogId)
      modifies this
      ensures GetLastPurgedLogId() == Some(id)
      ensures log == old(log) && vote == old(vote) && stateMachine == old(stateMachine)
      ensures snapshotIdx == old(snapshotIdx) && currentSnapshot == old(currentSnapshot)
    {
      lastPurgedLogId := Some(id);
    }

    /**
     * `get_log_state`: the last log id is that of the entry under the
     * greatest key, or the last purged id when the log is empty.
     */
    method GetLogState() returns (r: LogState)
      requires Valid()
      ensures r.lastPurgedLogId == GetLastPurgedLogId()
      ensures log == map[] ==> r.lastLogId == GetLastPurgedLogId()
      ensures log != map[] ==>
                && r.lastLogId.Some?
                && r.lastLogId.value.index in log
                && log[r.lastLogId.value.index].logId == r.lastLogId.value
                && forall k :: k in log ==> k <= r.lastLogId.value.index
    {
      var last: Option<LogId> := None;
      if log != map[] {
        LastKeyExists(log.Keys);
        var k :| k in log && forall j :: j in log ==> j == k || LexLess(KeyOf(j), KeyOf(k));
        forall j | j in log ensures j <= k {
          KeyOrder(j, k);
        }
        last := Some(log[k].logId);
      }
      var lastPurged := GetLastPurgedLogId();
      r := LogState(lastPurged, if last.None? then lastPurged else last);
    }

    /**
     * `try_get_log_entries`: the entries whose index is in the range, in
     * ascending index order, as kept in the log.
     */
    method TryGetLogEntries(start: Bound<u64>, end: Bound<u64>) returns (entries: seq<Entry>)
      requires Valid()
      ensures IndicesOf(entries) == set k | k in log && InIndexRange(k, start, end)
      ensures forall i :: 0 <= i < |entries| ==> entries[i].logId.index in log && log[entries[i].logId.index] == entries[i]
      ensures forall i, j :: 0 <= i < j < |entries| ==> entries[i].logId.index < entries[j].logId.index
    {
      var (lo, hi) := TransformRangeBound(start, end);
      var pending := set k | k in log && InKeyRange(KeyOf(k), lo, hi);
      entries := [];
      while pending != {}
        invariant Gathered(log, lo, hi, entries, pending)
        decreases pending
      {
        FirstKeyExists(pending);
        var k :| k in pending && forall j :: j in pending ==> j == k || LexLess(KeyOf(k), KeyOf(j));
        GatherStep(log, lo, hi, entries, pending, k);
        entries := entries + [log[k]];
        pending := pending - {k};
      }
      GatherDone(log, start, end, entries);
    }

    method SaveVote(v: Vote)
      modifies this
      ensures ReadVote() == Some(v)
      ensures log == old(log) && lastPurgedLogId == old(lastPurgedLogId) && stateMachine == old(stateMachine)
      ensures snapshotIdx == old(snapshotIdx) && currentSnapshot == old(currentSnapshot)
    {
      vote := Some(v);
    }

    function ReadVote(): Option<Vote>
      reads this
    {
      vote
    }

    /** `append_to_log`: each entry is inserted under its index, later ones overwriting earlier ones. */
    method AppendToLog(entries: seq<Entry>)
      requires Valid()
      modifies this
      ensures Valid()
      ensures log == Appended(old(log), entries)
      ensures vote == old(vote) && lastPurgedLogId == old(lastPurgedLogId) && stateMachine == old(stateMachine)
      ensures snapshotIdx == old(snapshotIdx) && currentSnapshot == old(currentSnapshot)
    {
      var l := log;
      var i := 0;
      while i < |entries|
        invariant 0 <= i <= |entries|
        invariant l == Appended(log, entries[..i])
      {
        assert entries[..i + 1][..i] == entries[..i];
        l := l[entries[i].logId.index := entries[i]];
        i := i + 1;
      }
      assert entries[..|entries|] == entries;
      AppendedKeyedByIndex(log, entries);
      log := l;
    }

    /** `delete_conflict_logs_since`: removes every entry from `id.index` on. */
    method DeleteConflictLogsSince(id: LogId)
      requires Valid()
      modifies this
      ensures Valid()
      ensures log == map k | k in old(log) && k < id.index :: old(log)[k]
      ensures vote == old(vote) && lastPurgedLogId == old(lastPurgedLogId) && stateMachine == old(stateMachine)
      ensures snapshotIdx == old(snapshotIdx) && currentSnapshot == old(currentSnapshot)
    {
      var (lo, hi) := TransformRangeBound(Included(id.index), Unbounded);
      var l := RemoveKeysInRange(log, lo, hi);
      forall k | k in log ensures InKeyRange(KeyOf(k), lo, hi) <==> id.index <= k {
        KeyRangeMatchesIndexRange(k, Included(id.index), Unbounded);
      }
      log := l;
    }

    /**
     * `purge_logs_upto`: panics unless the stored last purged id is at most
     * `Some(id)`; otherwise records `id` as last purged and removes every
     * entry up to and including `id.index`.
     */
    method PurgeLogsUpto(id: LogId) returns (r: Outcome<()>)
      requires Valid()
      modifies this
      ensures Valid()
      ensures r.Aborted? <==> !OptionLogIdLe(old(lastPurgedLogId), Some(id))
      ensures r.Aborted? ==> log == old(log) && lastPurgedLogId == old(lastPurgedLogId)
      ensures r.Returned? ==> GetLastPurgedLogId() == Some(id) && log == map k | k in old(log) && id.index < k :: old(log)[k]
      ensures vote == old(vote) && stateMachine == old(stateMachine)
      ensures snapshotIdx == old(snapshotIdx) && currentSnapshot == old(currentSnapshot)
    {
      var ld := GetLastPurgedLogId();
      if !OptionLogIdLe(ld, Some(id)) {
        return Aborted;
      }
      SetLastPurgedLogId(id);
      var (lo, hi) := TransformRangeBound(Unbounded, Included(id.index));
      var l := RemoveKeysInRange(log, lo, hi);
      forall k | k in log ensures InKeyRange(KeyOf(k), lo, hi) <==> k <= id.index {
        KeyRangeMatchesIndexRange(k, Unbounded, Included(id.index));
      }
      log := l;
      r := Returned(());
    }

    function LastAppliedState(): (Option<LogId>, EffectiveMembership)
      reads this
    {
      (stateMachine.lastAppliedLog, stateMachine.lastMembership)
    }

    /**
     * `apply_to_state_machine`: applies the entries in order, storing the
     * blob of each StoreData entry; a panicking store ends the call with
     * the changes made so far.
     */
    method ApplyToStateMachine(entries: seq<Entry>) returns (r: Outcome<seq<StorageNodeResponse>>)
      modifies this, fs
      ensures var a := ApplyAll(Applied(old(stateMachine), old(fs.files), [], false), fs.faults, cfg, entries);
              && stateMachine == a.sm && fs.files == a.files
              && r == if a.aborted then Aborted else Returned(a.responses)
      ensures log == old(log) && vote == old(vote) && lastPurgedLogId == old(lastPurgedLogId)
      ensures snapshotIdx == old(snapshotIdx) && currentSnapshot == old(currentSnapshot)
    {
      ghost var start := Applied(stateMachine, fs.files, [], false);
      var res: seq<StorageNodeResponse> := [];
      var sm := stateMachine;
      var aborted := false;
      var i := 0;
      while i < |entries| && !aborted
        invariant 0 <= i <= |entries|
        invariant Applied(sm, fs.files, res, aborted) == ApplyAll(start, fs.faults, cfg, entries[..i])
        modifies fs
      {
        var e := entries[i];
        assert entries[..i + 1][..i] == entries[..i];
        sm := sm.(lastAppliedLog := Some(e.logId));
        match e.payload {
          case Blank =>
            res := res + [StorageNodeResponse(None)];
          case Normal(StoreData(key, value)) =>
            sm := sm.(data := sm.data + [key]);
            var stored := StoreSlice(fs, cfg, key, value);
            if stored.Aborted? {
              aborted := true;
            } else if stored.value.Ok? {
              res := res + [StorageNodeResponse(None)];
            }
          case MembershipChange(m) =>
            sm := sm.(lastMembership := EffectiveMembership(Some(e.logId), m));
            res := res + [StorageNodeResponse(None)];
        }
        i := i + 1;
      }
      assert entries[..i] + entries[i..] == entries;
      ghost var done := ApplyAll(start, fs.faults, cfg, entries);
      if aborted {
        AbortedStays(Applied(sm, fs.files, res, aborted), fs.faults, cfg, entries[i..]);
        ApplyAllAppend(start, fs.faults, cfg, entries[..i], entries[i..]);
      } else {
        assert entries[..i] == entries;
      }
      assert done == Applied(sm, fs.files, res, aborted);
      stateMachine := sm;
      r := if aborted then Aborted else Returned(res);
    }

    /**
     * `build_snapshot`: panics on a state machine that has applied nothing;
     * otherwise bumps the counter, names the snapshot after the last applied
     * log id and the counter, and caches it.
     */
    method BuildSnapshot() returns (r: Outcome<Snapshot>)
      modifies this
      ensures r.Aborted? <==> old(stateMachine.lastAppliedLog).None?
      ensures r.Aborted? ==> snapshotIdx == old(snapshotIdx) && currentSnapshot == old(currentSnapshot)
      ensures r.Returned? ==>
                var last := old(stateMachine.lastAppliedLog).value;
                && snapshotIdx == old(snapshotIdx) + 1
                && r.value.meta == SnapshotMeta(last, old(stateMachine.lastMembership), SnapshotId(last, snapshotIdx))
                && Decode(r.value.data) == Some(old(stateMachine))
                && GetCurrentSnapshot() == Some(r.value)
      ensures log == old(log) && vote == old(vote) && lastPurgedLogId == old(lastPurgedLogId) && stateMachine == old(stateMachine)
    {
      var data := Encoded(stateMachine);
      var lastAppliedLog := stateMachine.lastAppliedLog;
      var lastMembership := stateMachine.lastMembership;
      if lastAppliedLog.None? {
        return Aborted;
      }
      var last := lastAppliedLog.value;
      snapshotIdx := snapshotIdx + 1;
      var meta := SnapshotMeta(last, lastMembership, SnapshotId(last, snapshotIdx));
      currentSnapshot := Some(Snapshot(meta, data));
      r := Returned(Snapshot(meta, data));
    }

    /**
     * `install_snapshot`: a snapshot that decodes replaces the state machine
     * and becomes the cached snapshot; one that does not is an error and
     * changes nothing.
     */
    method InstallSnapshot(meta: SnapshotMeta, data: SnapshotData) returns (r: Result<StateMachineChanges>)
      modifies this
      ensures r.Err? <==> Decode(data).None?
      ensures r.Err? ==> r.error == SnapshotReadError(meta) && stateMachine == old(stateMachine) && currentSnapshot == old(currentSnapshot)
      ensures r.Ok? ==>
                && r.value == StateMachineChanges(meta.lastLogId, true)
                && Some(stateMachine) == Decode(data)
                && LastAppliedState() == (Decode(data).value.lastAppliedLog, Decode(data).value.lastMembership)
                && GetCurrentSnapshot() == Some(Snapshot(meta, data))
      ensures log == old(log) && vote == old(vote) && lastPurgedLogId == old(lastPurgedLogId) && snapshotIdx == old(snapshotIdx)
    {
      var decoded := Decode(data);
      if decoded.None? {
        return Result.Err(SnapshotReadError(meta));
      }
      stateMachine := decoded.value;
      currentSnapshot := Some(Snapshot(meta, data));
      r := Result.Ok(StateMachineChanges(meta.lastLogId, true));
    }

    function GetCurrentSnapshot(): Option<Snapshot>
      reads this
    {
      currentSnapshot
    }
  }

  /** Two snapshots built with different counter values never share an id. */
  lemma SnapshotIdsDistinct(a: LogId, m: nat, b: LogId, n: nat)
    requires m != n
    ensures SnapshotId(a, m) != SnapshotId(b, n)
  {
    if SnapshotId(a, m) == SnapshotId(b, n) {
      SnapshotIdInjective(a, m, b, n);
    }
  }
}
