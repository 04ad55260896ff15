/**
 * The Raft-backed slice handlers (Storage/src/network/slice.rs). GET reads
 * the blob of an id straight from the node's blob store; PUT proposes a
 * StoreData entry to the Raft group and maps the outcome of the proposal
 * to an HTTP response. The outcome of `client_write` comes from the Raft
 * engine and is a parameter here.
 */
module SliceHandlers {
  import opened Common
  import opened Fs
  import opened FsIo
  import opened RaftTypes
  import opened ApplySpec
  import opened Http

  /** An id of fewer than 66 bytes (64 for the hash, a '.', a name) is turned away when it is ASCII. */
  predicate RejectsId(id: Bytes) {
    |id| < 64 + 1 + 1 && IsAscii(id)
  }

  const REJECTED_BODY: Bytes := Ascii("ID should be 64 bytes long ascii and '.' and object name.")
  const NO_SUCH_RESULT: Bytes := Ascii("No such result.\nDetail: ")

  /** The address a cluster member is reached at. */
  datatype Node = Node(addr: Bytes)

  /** What `Raft::client_write` returns; the other write errors are not told apart. */
  datatype ClientWriteResult =
    | WriteOk(logId: LogId, data: StorageNodeResponse)
    | ForwardToLeader(leaderId: Option<u64>, leaderNode: Option<Node>)
    | OtherWriteError

  /** A body set with `.body(..)`, or the `client_write` result encoded as JSON. */
  datatype PutBody = Text(text: Bytes) | Json(result: ClientWriteResult)

  /** The request proposed to Raft, if any, and the response sent back. */
  datatype PutExchange = PutExchange(proposed: Option<StorageNodeRequest>, response: Response<PutBody>)

  /**
   * `get_slice`: 406 for a rejected id; otherwise 200 with the blob of the
   * id, or 404 with the read error. A panic in the split passes through.
   */
  function GetSlice(files: map<Path, Bytes>, cfg: Config, id: Bytes): (r: Outcome<Response<Bytes>>)
    ensures RejectsId(id) ==> r == Returned(Response(NOT_ACCEPTABLE, [], REJECTED_BODY))
    ensures !RejectsId(id) ==> (r.Aborted? <==> BlobSplit(cfg, id).Aborted?)
    ensures r.Returned? && r.value.status == OK <==> !RejectsId(id) && BlobSplit(cfg, id).Returned? && BlobPath(cfg, BlobSplit(cfg, id).value) in files
    ensures r.Returned? && r.value.status == OK ==> r.value == Response(OK, [OCTET_STREAM], files[BlobPath(cfg, BlobSplit(cfg, id).value)])
    ensures r.Returned? && r.value.status != OK ==> r.value.status in {NOT_ACCEPTABLE, NOT_FOUND}
  {
    if RejectsId(id) then Returned(Response(NOT_ACCEPTABLE, [], REJECTED_BODY))
    else
      match ReadSliceOn(files, cfg, id)
      case Aborted => Aborted
      case Returned(read) =>
        if read.Ok? then Returned(Response(OK, [OCTET_STREAM], read.value))
        else Returned(Response(NOT_FOUND, [], NO_SUCH_RESULT + IoErrorText(read.error)))
  }

  /** An accepted ASCII id has at least 66 bytes, and reading it never panics. */
  lemma AcceptedAsciiIdNeverPanics(files: map<Path, Bytes>, cfg: Config, id: Bytes)
    requires !RejectsId(id) && IsAscii(id)
    ensures |id| >= 66
    ensures GetSlice(files, cfg, id).Returned?
  {
    AsciiIdNeverPanics(id, cfg.storageDirectoryDepth, DIRECTORY_NAME_LENGTH);
  }

  function RedirectUrl(addr: Bytes, id: Bytes): Bytes {
    Ascii("http://") + addr + Ascii("/slice/") + id
  }

  /**
   * `put_slice`: a rejected id is answered 406 before anything is proposed.
   * Otherwise the entry StoreData(id, body) is proposed, and the outcome
   * decides the status: 200 on success, 307 to the leader when a leader node
   * is known, 500 otherwise.
   */
  function PutSlice(id: Bytes, body: Bytes, clientWrite: StorageNodeRequest -> ClientWriteResult): (r: PutExchange)
    ensures r.proposed.None? <==> RejectsId(id)
    ensures RejectsId(id) ==> r.response == Response(NOT_ACCEPTABLE, [], Text(REJECTED_BODY))
    ensures r.proposed.Some? ==> r.proposed.value == StoreData(id, body) && r.response.body == Json(clientWrite(r.proposed.value))
    ensures r.response.status == OK <==> r.proposed.Some? && clientWrite(r.proposed.value).WriteOk?
    ensures r.response.status == TEMPORARY_REDIRECT <==>
              r.proposed.Some? && clientWrite(r.proposed.value).ForwardToLeader? && clientWrite(r.proposed.value).leaderNode.Some?
    ensures r.response.status == TEMPORARY_REDIRECT ==>
              r.response.headers == [LocationHeader(RedirectUrl(clientWrite(r.proposed.value).leaderNode.value.addr, id)), JSON]
    ensures r.response.status in {OK, TEMPORARY_REDIRECT, NOT_ACCEPTABLE, INTERNAL_SERVER_ERROR}
  {
    if RejectsId(id) then PutExchange(None, Response(NOT_ACCEPTABLE, [], Text(REJECTED_BODY)))
    else
      var request := StoreData(id, body);
      var response := clientWrite(request);
      var reply :=
        match response
        case ForwardToLeader(_, Some(leader)) =>
          Response(TEMPORARY_REDIRECT, [LocationHeader(RedirectUrl(leader.addr, id)), JSON], Json(response))
        case ForwardToLeader(_, None) => Response(INTERNAL_SERVER_ERROR, [JSON], Json(response))
        case OtherWriteError => Response(INTERNAL_SERVER_ERROR, [JSON], Json(response))
        case WriteOk(_, _) => Response(OK, [JSON], Json(response));
      PutExchange(Some(request), reply)
  }

  /** The redirect keeps the id exactly: the id is what follows the leader's "/slice/". */
  lemma RedirectKeepsId(addr: Bytes, id: Bytes)
    ensures var url := RedirectUrl(addr, id);
            |url| >= |id| && url[|url| - |id|..] == id
            && url[..|url| - |id|] == Ascii("http://") + addr + Ascii("/slice/")
  {
  }

  /**
   * A PUT whose proposal commits and is applied by a node whose store
   * succeeds can be read back from that node with GET: 200 with the body.
   */
  lemma CommittedPutIsReadable(a: Applied, faults: Faults, cfg: Config, logId: LogId, id: Bytes, body: Bytes,
                               clientWrite: StorageNodeRequest -> ClientWriteResult)
    requires !a.aborted && PutSlice(id, body, clientWrite).proposed.Some?
    requires StoreSliceOn(a.files, faults, cfg, id, body).result == Returned(IoResult.Ok(()))
    ensures var e := Entry(logId, Normal(PutSlice(id, body, clientWrite).proposed.value));
            GetSlice(ApplyEntry(a, faults, cfg, e).files, cfg, id) == Returned(Response(OK, [OCTET_STREAM], body))
  {
    StoreThenRead(a.files, faults, cfg, id, body);
  }
}
