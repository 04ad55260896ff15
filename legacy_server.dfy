/**
 * The direct slice server (Storage/src/server.rs): GET and PUT on
 * `/slice/{id}` read and write the blob file of `id` without going through
 * Raft. The file path is derived from the id exactly as the blob store of
 * Storage/src/store/fs_io.rs derives it.
 */
module LegacyServer {
  import opened Common
  import opened Utf8
  import opened Fs
  import opened FsIo
  import opened Http

  /** The id check: only an all-ASCII id whose length is not 64 is turned away. */
  predicate RejectsId(id: Bytes) {
    |id| != 64 && IsAscii(id)
  }

  const REJECTED_BODY: Bytes := Ascii("ID should be 64 bytes long ascii.")
  const NO_SUCH_RESULT: Bytes := Ascii("No such result")
  const CREATE_DIR_FAILED: Bytes := Ascii("Server can't create directory to storage file.\nDetail: ")
  const WRITE_FAILED: Bytes := Ascii("Server can't write file.\nDetail: ")
  const WRITE_FINISHED: Bytes := Ascii("Write finished")

  /** Two-byte pieces of the id, each converted to a string; a piece that is not UTF-8 panics. */
  function TransformIdIntoChunks(id: Bytes): (r: Outcome<seq<Bytes>>)
    ensures r.Aborted? <==> !AllUtf8(Chunks(id, DIRECTORY_NAME_LENGTH))
    ensures r.Returned? ==> Concat(r.value) == id
    ensures r.Returned? ==> forall i :: 0 <= i < |r.value| ==> 0 < |r.value[i]| <= 2
  {
    var chunks := Chunks(id, DIRECTORY_NAME_LENGTH);
    ChunksConcat(id, DIRECTORY_NAME_LENGTH);
    ChunksShape(id, DIRECTORY_NAME_LENGTH);
    if AllUtf8(chunks) then Returned(chunks) else Aborted
  }

  /** `storage_location/directory/filename` for the chunks of an id. */
  function ChunkPath(cfg: Config, chunks: seq<Bytes>): Path {
    cfg.storageLocation + SLASH + Directory(chunks, cfg.storageDirectoryDepth) + SLASH + Filename(chunks, cfg.storageDirectoryDepth)
  }

  /**
   * `get_slice`: 406 for a rejected id; otherwise 200 with the bytes of the
   * id's file, or 404 when it cannot be read. The path is the blob store's
   * path for the id, so the handler answers 200 exactly when the blob store
   * holds a blob for the id, and answers it with that blob.
   */
  function GetSlice(files: map<Path, Bytes>, cfg: Config, id: Bytes): (r: Outcome<Response<Bytes>>)
    ensures RejectsId(id) ==> r == Returned(Response(NOT_ACCEPTABLE, [], REJECTED_BODY))
    ensures !RejectsId(id) ==> (r.Aborted? <==> ReadSliceOn(files, cfg, id).Aborted?)
    ensures r.Returned? && r.value.status == OK <==> !RejectsId(id) && ReadSliceOn(files, cfg, id).Returned? && ReadSliceOn(files, cfg, id).value.Ok?
    ensures r.Returned? && r.value.status == OK ==> r.value == Response(OK, [OCTET_STREAM], ReadSliceOn(files, cfg, id).value.value)
    ensures r.Returned? && r.value.status != OK ==> r.value.status in {NOT_ACCEPTABLE, NOT_FOUND}
  {
    if RejectsId(id) then Returned(Response(NOT_ACCEPTABLE, [], REJECTED_BODY))
    else
      match TransformIdIntoChunks(id)
      case Aborted => Aborted
      case Returned(chunks) =>
        match ReadOn(files, ChunkPath(cfg, chunks))
        case Ok(result) => Returned(Response(OK, [OCTET_STREAM], result))
        case Err(_) => Returned(Response(NOT_FOUND, [], NO_SUCH_RESULT))
  }

  /**
   * `put_slice`: 406 for a rejected id; otherwise create the id's directory
   * (500 if that fails, with nothing written), write the body to the id's
   * file (500 if that fails) and answer 200 "Write finished". The effect on
   * the files is the blob store's `store_slice` for the id.
   */
  method PutSlice(fs: FileSystem, cfg: Config, id: Bytes, body: Bytes) returns (r: Outcome<Response<Bytes>>)
    modifies fs
    ensures RejectsId(id) ==> r == Returned(Response(NOT_ACCEPTABLE, [], REJECTED_BODY)) && fs.files == old(fs.files)
    ensures !RejectsId(id) ==> fs.files == StoreSliceOn(old(fs.files), fs.faults, cfg, id, body).files
    ensures !RejectsId(id) ==> (r.Aborted? <==> BlobSplit(cfg, id).Aborted?)
    ensures r.Returned? && r.value.status == OK <==> !RejectsId(id) && StoreSliceOn(old(fs.files), fs.faults, cfg, id, body).result == Returned(Ok(()))
    ensures r.Returned? && r.value.status == OK ==> r.value == Response(OK, [OCTET_STREAM], WRITE_FINISHED)
    ensures r.Returned? && r.value.status != OK ==> r.value.status in {NOT_ACCEPTABLE, INTERNAL_SERVER_ERROR}
    ensures r.Returned? && r.value.status == INTERNAL_SERVER_ERROR ==>
              var st := StoreSliceOn(old(fs.files), fs.faults, cfg, id, body).result;
              var dir := cfg.storageLocation + SLASH + BlobSplit(cfg, id).value.directory;
              && st.Returned? && st.value.Err? && fs.files == old(fs.files)
              && r.value.body == (if CreateDirAllOn(fs.faults, dir).Err? then CREATE_DIR_FAILED else WRITE_FAILED) + IoErrorText(st.value.error)
  {
    if RejectsId(id) {
      return Returned(Response(NOT_ACCEPTABLE, [], REJECTED_BODY));
    }
    var transformed := TransformIdIntoChunks(id);
    if transformed.Aborted? {
      return Aborted;
    }
    var chunks := transformed.value;
    var depth := cfg.storageDirectoryDepth;
    var directory := Directory(chunks, depth);
    var fullDirectory := cfg.storageLocation + SLASH + directory;
    var created := fs.CreateDirAll(fullDirectory);
    if created.Err? {
      return Returned(Response(INTERNAL_SERVER_ERROR, [], CREATE_DIR_FAILED + IoErrorText(created.error)));
    }
    var filename := Filename(chunks, depth);
    var fullPath := fullDirectory + SLASH + filename;
    var written := fs.Write(fullPath, body);
    if written.Err? {
      return Returned(Response(INTERNAL_SERVER_ERROR, [], WRITE_FAILED + IoErrorText(written.error)));
    }
    return Returned(Response(OK, [OCTET_STREAM], WRITE_FINISHED));
  }

  /** GET and PUT derive the same path: a PUT answered 200 is followed by a GET answering 200 with the body. */
  lemma GetAfterPut(files: map<Path, Bytes>, faults: Faults, cfg: Config, id: Bytes, body: Bytes)
    requires !RejectsId(id) && StoreSliceOn(files, faults, cfg, id, body).result == Returned(Ok(()))
    ensures GetSlice(StoreSliceOn(files, faults, cfg, id, body).files, cfg, id) == Returned(Response(OK, [OCTET_STREAM], body))
  {
    StoreThenRead(files, faults, cfg, id, body);
  }

  /** A GET of an id whose blob was never written answers 404 (or panics in the split). */
  lemma GetOfMissingBlob(files: map<Path, Bytes>, cfg: Config, id: Bytes)
    requires !RejectsId(id) && BlobSplit(cfg, id).Returned?
    requires BlobPath(cfg, BlobSplit(cfg, id).value) !in files
    ensures GetSlice(files, cfg, id) == Returned(Response(NOT_FOUND, [], NO_SUCH_RESULT))
  {
  }

  /** ASCII ids of 64 bytes pass the check, and so does every non-ASCII id, whatever its length. */
  lemma AcceptedIds(id: Bytes)
    ensures |id| == 64 ==> !RejectsId(id)
    ensures !IsAscii(id) ==> !RejectsId(id)
  {
  }

  /** An accepted ASCII id has exactly 64 bytes, and its path is always derived without a panic. */
  lemma AcceptedAsciiIdNeverPanics(files: map<Path, Bytes>, cfg: Config, id: Bytes)
    requires !RejectsId(id) && IsAscii(id)
    ensures |id| == 64
    ensures GetSlice(files, cfg, id).Returned?
  {
    AsciiIdNeverPanics(id, cfg.storageDirectoryDepth, DIRECTORY_NAME_LENGTH);
  }

  /**
   * The three-byte id "aé" is valid UTF-8 and passes the check, but its
   * first two-byte piece cuts 'é' in half: the handler panics.
   */
  lemma NonAsciiShortIdPanics(files: map<Path, Bytes>, cfg: Config)
    ensures Utf8Valid([0x61, 0xC3, 0xA9]) && !RejectsId([0x61, 0xC3, 0xA9])
    ensures GetSlice(files, cfg, [0x61, 0xC3, 0xA9]) == Aborted
  {
    SplitCharacterPanics(cfg.storageDirectoryDepth);
    var id: Bytes := [0x61, 0xC3, 0xA9];
    assert !IsAscii(id) by { assert id[1] >= 128; }
  }
}
