/**
 * The values the Raft store keeps (Storage/src/store/mod.rs and the openraft
 * types it stores): log ids and their order, votes, memberships, log entries,
 * the application state machine and snapshots, and the snapshot naming
 * scheme.
 */
module RaftTypes {
  import opened Common

  /** The leader of a term: openraft orders it by term, then node id. */
  datatype LeaderId = LeaderId(term: u64, nodeId: u64)

  /** Position of an entry in the replicated log. */
  datatype LogId = LogId(leaderId: LeaderId, index: u64)

  datatype Vote = Vote(term: u64, nodeId: u64, committed: bool)

  /** A joint configuration: one voter set per configuration. */
  datatype Membership = Membership(configs: seq<set<u64>>)

  datatype EffectiveMembership = EffectiveMembership(logId: Option<LogId>, membership: Membership)

  /** The only write request of the storage cluster: keep blob `value` under `id`. */
  datatype StorageNodeRequest = StoreData(id: Bytes, value: Bytes)

  datatype StorageNodeResponse = StorageNodeResponse(value: Option<Bytes>)

  datatype EntryPayload = Blank | Normal(request: StorageNodeRequest) | MembershipChange(membership: Membership)

  datatype Entry = Entry(logId: LogId, payload: EntryPayload)

  /** `StorageNodeStoreStateMachine`: the applied position, the membership, and the ids of stored blobs. */
  datatype StateMachine = StateMachine(lastAppliedLog: Option<LogId>, lastMembership: EffectiveMembership, data: seq<Bytes>)

  /** `StorageNodeStoreStateMachine::default()`. */
  const DEFAULT_STATE_MACHINE: StateMachine := StateMachine(None, EffectiveMembership(None, Membership([{}])), [])

  /**
   * The bytes of a snapshot: either the JSON encoding of a state machine, or
   * bytes that do not decode as one.
   */
  datatype SnapshotData = Encoded(sm: StateMachine) | Undecodable(raw: Bytes)

  function Decode(data: SnapshotData): (r: Option<StateMachine>)
    ensures r.Some? <==> data.Encoded?
  {
    match data
    case Encoded(sm) => Some(sm)
    case Undecodable(_) => None
  }

  datatype SnapshotMeta = SnapshotMeta(lastLogId: LogId, lastMembership: EffectiveMembership, snapshotId: string)

  /** A snapshot as built, cached and handed out: its meta and its data. */
  datatype Snapshot = Snapshot(meta: SnapshotMeta, data: SnapshotData)

  datatype LogState = LogState(lastPurgedLogId: Option<LogId>, lastLogId: Option<LogId>)

  datatype StateMachineChanges = StateMachineChanges(lastApplied: LogId, isSnapshot: bool)

  /** The one storage error the store reports: a snapshot whose data cannot be read. */
  datatype StorageError = SnapshotReadError(meta: SnapshotMeta)

  datatype Result<+T> = Ok(value: T) | Err(error: StorageError)

  // ---------------------------------------------------------------------
  // Order of log ids (the derived `Ord` of openraft's LeaderId and LogId,
  // and Rust's order on Option, where None comes first)
  // ---------------------------------------------------------------------

  predicate LeaderIdLess(a: LeaderId, b: LeaderId) {
    a.term < b.term || (a.term == b.term && a.nodeId < b.nodeId)
  }

  predicate LogIdLe(a: LogId, b: LogId) {
    LeaderIdLess(a.leaderId, b.leaderId) || (a.leaderId == b.leaderId && a.index <= b.index)
  }

  predicate OptionLogIdLe(a: Option<LogId>, b: Option<LogId>) {
    a.None? || (b.Some? && LogIdLe(a.value, b.value))
  }

  // ---------------------------------------------------------------------
  // Snapshot ids: "{leader_id}-{index}-{counter}"
  // ---------------------------------------------------------------------

  /** `Display` of a leader id: "{term}-{node_id}". */
  function LeaderIdText(l: LeaderId): string {
    Decimal(l.term) + "-" + Decimal(l.nodeId)
  }

  function SnapshotId(last: LogId, counter: nat): string {
    LeaderIdText(last.leaderId) + "-" + Decimal(last.index) + "-" + Decimal(counter)
  }

  /** The text after the last '-' (all of it when there is none). */
  function LastField(s: string): (f: string)
    ensures |f| <= |s|
    decreases |s|
  {
    if s == [] || s[|s| - 1] == '-' then [] else LastField(s[..|s| - 1]) + [s[|s| - 1]]
  }

  lemma {:induction false} LastFieldOfDigits(x: string, d: string)
    requires forall i :: 0 <= i < |d| ==> IsDigit(d[i])
    ensures LastField(x + "-" + d) == d
    decreases |d|
  {
    var t := x + "-" + d;
    if d == [] {
      assert t[|t| - 1] == '-';
    } else {
      assert t[..|t| - 1] == x + "-" + d[..|d| - 1];
      assert t[|t| - 1] == d[|d| - 1];
      LastFieldOfDigits(x, d[..|d| - 1]);
      assert d[..|d| - 1] + [d[|d| - 1]] == d;
    }
  }

  /** The text after the last '-' is a number, and it and the text before it can be read back. */
  lemma DashDecimalInjective(x: string, m: nat, y: string, n: nat)
    requires x + "-" + Decimal(m) == y + "-" + Decimal(n)
    ensures x == y && m == n
  {
    var s := x + "-" + Decimal(m);
    LastFieldOfDigits(x, Decimal(m));
    LastFieldOfDigits(y, Decimal(n));
    DecimalInjective(m, n);
    assert x == s[..|x|] == y;
  }

  /** Distinct (log id, counter) pairs give distinct snapshot ids. */
  lemma SnapshotIdInjective(a: LogId, m: nat, b: LogId, n: nat)
    requires SnapshotId(a, m) == SnapshotId(b, n)
    ensures a == b && m == n
  {
    DashDecimalInjective(LeaderIdText(a.leaderId) + "-" + Decimal(a.index), m,
                         LeaderIdText(b.leaderId) + "-" + Decimal(b.index), n);
    DashDecimalInjective(LeaderIdText(a.leaderId), a.index, LeaderIdText(b.leaderId), b.index);
    DashDecimalInjective(Decimal(a.leaderId.term), a.leaderId.nodeId, Decimal(b.leaderId.term), b.leaderId.nodeId);
    DecimalInjective(a.leaderId.term, b.leaderId.term);
  }
}
