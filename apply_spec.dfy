/**
 * What `apply_to_state_machine` (Storage/src/store/mod.rs) does to the state
 * machine, the blob files and the list of responses, entry by entry, and
 * the properties of a whole batch. The store's method is proved against
 * `ApplyAll`.
 */
module ApplySpec {
  import opened Common
  import opened Fs
  import opened FsIo
  import opened RaftTypes

  /** The state a batch works on: the state machine, the files, the responses so far, and whether a store panicked. */
  datatype Applied = Applied(sm: StateMachine, files: map<Path, Bytes>, responses: seq<StorageNodeResponse>, aborted: bool)

  const NO_VALUE: StorageNodeResponse := StorageNodeResponse(None)

  /** One turn of the loop; nothing happens once a store has panicked. */
  function ApplyEntry(a: Applied, faults: Faults, cfg: Config, e: Entry): Applied {
    if a.aborted then a
    else
      var sm := a.sm.(lastAppliedLog := Some(e.logId));
      match e.payload
      case Blank => a.(sm := sm, responses := a.responses + [NO_VALUE])
      case Normal(StoreData(id, value)) =>
        var sm' := sm.(data := sm.data + [id]);
        var st := StoreSliceOn(a.files, faults, cfg, id, value);
        (match st.result
         case Aborted => Applied(sm', st.files, a.responses, true)
         case Returned(Err(_)) => Applied(sm', st.files, a.responses, false)
         case Returned(Ok(_)) => Applied(sm', st.files, a.responses + [NO_VALUE], false))
      case MembershipChange(m) =>
        a.(sm := sm.(lastMembership := EffectiveMembership(Some(e.logId), m)), responses := a.responses + [NO_VALUE])
  }

  /** The entries applied in order. */
  function ApplyAll(a: Applied, faults: Faults, cfg: Config, es: seq<Entry>): Applied
    decreases |es|
  {
    if es == [] then a
    else ApplyEntry(ApplyAll(a, faults, cfg, es[..|es| - 1]), faults, cfg, es[|es| - 1])
  }

  /** The ids of the StoreData entries, in order. */
  function StoredIds(es: seq<Entry>): seq<Bytes>
    decreases |es|
  {
    if es == [] then []
    else
      var e := es[|es| - 1];
      StoredIds(es[..|es| - 1]) + (if e.payload.Normal? then [e.payload.request.id] else [])
  }

  /** The (id, blob) pairs of the StoreData entries, in order. */
  function StoreWrites(es: seq<Entry>): seq<(Bytes, Bytes)>
    decreases |es|
  {
    if es == [] then []
    else
      var e := es[|es| - 1];
      StoreWrites(es[..|es| - 1]) + (if e.payload.Normal? then [(e.payload.request.id, e.payload.request.value)] else [])
  }

  /** The last membership change of a batch, stamped with its log id. */
  function LastMembershipChange(es: seq<Entry>): Option<EffectiveMembership>
    decreases |es|
  {
    if es == [] then None
    else
      var e := es[|es| - 1];
      if e.payload.MembershipChange? then Some(EffectiveMembership(Some(e.logId), e.payload.membership))
      else LastMembershipChange(es[..|es| - 1])
  }

  /** How many StoreData entries of a batch meet a `store_slice` error (not a panic). */
  function FailedStores(a: Applied, faults: Faults, cfg: Config, es: seq<Entry>): nat
    decreases |es|
  {
    if es == [] then 0
    else
      var init := es[..|es| - 1];
      var e := es[|es| - 1];
      FailedStores(a, faults, cfg, init)
        + (if e.payload.Normal?
              && StoreSliceOn(ApplyAll(a, faults, cfg, init).files, faults, cfg, e.payload.request.id, e.payload.request.value).result.Returned?
              && StoreSliceOn(ApplyAll(a, faults, cfg, init).files, faults, cfg, e.payload.request.id, e.payload.request.value).result.value.Err?
           then 1 else 0)
  }

  // ---------------------------------------------------------------------
  // Properties of a batch
  // ---------------------------------------------------------------------

  /** Once a store has panicked, no later entry changes anything. */
  lemma {:induction false} AbortedStays(a: Applied, faults: Faults, cfg: Config, es: seq<Entry>)
    requires a.aborted
    ensures ApplyAll(a, faults, cfg, es) == a
    decreases |es|
  {
    if es != [] {
      AbortedStays(a, faults, cfg, es[..|es| - 1]);
    }
  }

  /** Applying two batches one after the other is applying their concatenation. */
  lemma {:induction false} ApplyAllAppend(a: Applied, faults: Faults, cfg: Config, xs: seq<Entry>, ys: seq<Entry>)
    ensures ApplyAll(a, faults, cfg, xs + ys) == ApplyAll(ApplyAll(a, faults, cfg, xs), faults, cfg, ys)
    decreases |ys|
  {
    if ys == [] {
      assert xs + ys == xs;
    } else {
      assert (xs + ys)[..|xs + ys| - 1] == xs + ys[..|ys| - 1];
      assert (xs + ys)[|xs + ys| - 1] == ys[|ys| - 1];
      ApplyAllAppend(a, faults, cfg, xs, ys[..|ys| - 1]);
    }
  }

  /** A batch that ends without a panic also ran every prefix without one. */
  lemma NotAbortedBefore(a: Applied, faults: Faults, cfg: Config, es: seq<Entry>)
    requires es != [] && !ApplyAll(a, faults, cfg, es).aborted
    ensures !ApplyAll(a, faults, cfg, es[..|es| - 1]).aborted
  {
  }

  /**
   * Every entry sets `last_applied_log` to its own log id, so after a batch
   * it is the log id of the last entry, whatever it was before: nothing
   * skips an entry that was already applied.
   */
  lemma LastAppliedIsLastEntry(a: Applied, faults: Faults, cfg: Config, es: seq<Entry>)
    requires es != [] && !ApplyAll(a, faults, cfg, es).aborted
    ensures ApplyAll(a, faults, cfg, es).sm.lastAppliedLog == Some(es[|es| - 1].logId)
  {
    NotAbortedBefore(a, faults, cfg, es);
  }

  /** The id of every StoreData entry is pushed onto `data`, whatever the store returns. */
  lemma {:induction false} DataGrowsByStoredIds(a: Applied, faults: Faults, cfg: Config, es: seq<Entry>)
    requires !ApplyAll(a, faults, cfg, es).aborted
    ensures ApplyAll(a, faults, cfg, es).sm.data == a.sm.data + StoredIds(es)
    decreases |es|
  {
    if es != [] {
      var init, e := es[..|es| - 1], es[|es| - 1];
      var b := ApplyAll(a, faults, cfg, init);
      assert ApplyAll(a, faults, cfg, es) == ApplyEntry(b, faults, cfg, e);
      DataStep(b, faults, cfg, e);
      DataGrowsByStoredIds(a, faults, cfg, init);
      assert StoredIds(es) == StoredIds(init) + (if e.payload.Normal? then [e.payload.request.id] else []);
    }
  }

  /** One entry pushes its id onto `data` when it is a StoreData entry, and nothing else. */
  lemma DataStep(b: Applied, faults: Faults, cfg: Config, e: Entry)
    requires !ApplyEntry(b, faults, cfg, e).aborted
    ensures !b.aborted
    ensures ApplyEntry(b, faults, cfg, e).sm.data == b.sm.data + (if e.payload.Normal? then [e.payload.request.id] else [])
  {
  }

  /** `last_membership` is the last membership change of the batch, stamped with its log id; unchanged if there is none. */
  lemma {:induction false} MembershipFromLastChange(a: Applied, faults: Faults, cfg: Config, es: seq<Entry>)
    requires !ApplyAll(a, faults, cfg, es).aborted
    ensures ApplyAll(a, faults, cfg, es).sm.lastMembership
            == match LastMembershipChange(es)
               case None => a.sm.lastMembership
               case Some(m) => m
    decreases |es|
  {
    if es != [] {
      NotAbortedBefore(a, faults, cfg, es);
      MembershipFromLastChange(a, faults, cfg, es[..|es| - 1]);
    }
  }

  /**
   * Blank and membership entries and each successful store add one empty
   * response; a failed store adds none. So the batch adds one response per
   * entry, less the failed stores.
   */
  lemma {:induction false} ResponseCount(a: Applied, faults: Faults, cfg: Config, es: seq<Entry>)
    requires !ApplyAll(a, faults, cfg, es).aborted
    ensures var r := ApplyAll(a, faults, cfg, es).responses;
            && FailedStores(a, faults, cfg, es) <= |es|
            && |r| == |a.responses| + |es| - FailedStores(a, faults, cfg, es)
            && r[..|a.responses|] == a.responses
            && forall i :: |a.responses| <= i < |r| ==> r[i] == NO_VALUE
    decreases |es|
  {
    if es != [] {
      NotAbortedBefore(a, faults, cfg, es);
      ResponseCount(a, faults, cfg, es[..|es| - 1]);
    }
  }

  /** The files end up as if `store_slice` had been called on each StoreData entry in turn. */
  lemma {:induction false} FilesFollowStores(a: Applied, faults: Faults, cfg: Config, es: seq<Entry>)
    requires !ApplyAll(a, faults, cfg, es).aborted
    ensures ApplyAll(a, faults, cfg, es).files == StoreEach(a.files, faults, cfg, StoreWrites(es))
    decreases |es|
  {
    if es != [] {
      NotAbortedBefore(a, faults, cfg, es);
      var init := es[..|es| - 1];
      var e := es[|es| - 1];
      FilesFollowStores(a, faults, cfg, init);
      if e.payload.Normal? {
        StoreEachSnoc(a.files, faults, cfg, StoreWrites(init), (e.payload.request.id, e.payload.request.value));
      } else {
        assert StoreWrites(es) == StoreWrites(init) + [] == StoreWrites(init);
        assert ApplyAll(a, faults, cfg, es).files == ApplyAll(a, faults, cfg, init).files;
      }
    }
  }

  /**
   * Applying the same batch twice pushes its ids twice: the store does not
   * recognise entries it has already applied.
   */
  lemma ReapplyDuplicatesIds(a: Applied, faults: Faults, cfg: Config, es: seq<Entry>)
    requires !ApplyAll(ApplyAll(a, faults, cfg, es), faults, cfg, es).aborted
    ensures ApplyAll(ApplyAll(a, faults, cfg, es), faults, cfg, es).sm.data == a.sm.data + StoredIds(es) + StoredIds(es)
  {
    var once := ApplyAll(a, faults, cfg, es);
    if once.aborted {
      AbortedStays(once, faults, cfg, es);
    }
    DataGrowsByStoredIds(a, faults, cfg, es);
    DataGrowsByStoredIds(once, faults, cfg, es);
  }
}
