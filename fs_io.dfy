/**
 * The sharded blob store of a storage node (Storage/src/store/fs_io.rs).
 * An id is cut into fixed-width byte chunks; the first `depth` chunks,
 * joined by '/', name a directory under the storage location, and the
 * remaining chunks, run together, name the file in it.
 */
module FsIo {
  import opened Common
  import opened Utf8
  import opened Fs

  /**
   * The two start-up settings the blob store reads: `storage_location`
   * (its trailing '/' already trimmed) and `storage_directory_depth`.
   */
  datatype Config = Config(storageLocation: Path, storageDirectoryDepth: nat)

  /** Width of one directory name, in bytes. */
  const DIRECTORY_NAME_LENGTH: nat := 2

  datatype Split = Split(directory: Path, filename: Bytes)

  function Concat(parts: seq<Bytes>): Bytes {
    if parts == [] then [] else parts[0] + Concat(parts[1..])
  }

  /** `intersperse(sep)` followed by `collect::<String>()`. */
  function Join(parts: seq<Bytes>, sep: Bytes): Bytes {
    if parts == [] then []
    else if |parts| == 1 then parts[0]
    else parts[0] + sep + Join(parts[1..], sep)
  }

  lemma {:induction false} JoinEmptySeparator(parts: seq<Bytes>)
    ensures Join(parts, []) == Concat(parts)
  {
    if |parts| > 1 {
      JoinEmptySeparator(parts[1..]);
    } else if |parts| == 1 {
      assert parts[1..] == [];
    }
  }

  /**
   * `id.as_bytes().chunks(width)`: consecutive pieces of `width` bytes, only
   * the last one possibly shorter, which run together give back the id.
   */
  function Chunks(id: Bytes, width: nat): seq<Bytes>
    requires width > 0
    decreases |id|
  {
    if id == [] then []
    else if |id| <= width then [id]
    else [id[..width]] + Chunks(id[width..], width)
  }

  lemma {:induction false} ChunksConcat(id: Bytes, width: nat)
    requires width > 0
    ensures Concat(Chunks(id, width)) == id
    decreases |id|
  {
    if |id| > width {
      ChunksConcat(id[width..], width);
      var cs := Chunks(id, width);
      assert cs[0] == id[..width] && cs[1..] == Chunks(id[width..], width);
      assert id == id[..width] + id[width..];
    }
  }

  /** Every chunk has between 1 and `width` bytes, and only the last may have fewer than `width`. */
  lemma {:induction false} ChunksShape(id: Bytes, width: nat)
    requires width > 0
    ensures forall i :: 0 <= i < |Chunks(id, width)| ==> 0 < |Chunks(id, width)[i]| <= width
    ensures forall i :: 0 <= i < |Chunks(id, width)| - 1 ==> |Chunks(id, width)[i]| == width
    decreases |id|
  {
    if |id| > width {
      var cs := Chunks(id, width);
      var rest := Chunks(id[width..], width);
      ChunksShape(id[width..], width);
      assert cs == [id[..width]] + rest;
      assert forall i :: 0 < i < |cs| ==> cs[i] == rest[i - 1];
    }
  }

  /** Every chunk converts back to a `&str`; otherwise `from_utf8(..).unwrap()` panics. */
  predicate AllUtf8(chunks: seq<Bytes>) {
    forall i :: 0 <= i < |chunks| ==> Utf8Valid(chunks[i])
  }

  /**
   * An id whose path components are ordinary names: no byte is '/', and no
   * chunk is "." or "..". Nothing in the servers enforces this; for such
   * ids distinct path strings name distinct files.
   */
  predicate PlainId(id: Bytes) {
    && (forall i :: 0 <= i < |id| ==> id[i] != SLASH[0])
    && (forall c :: c in Chunks(id, DIRECTORY_NAME_LENGTH) ==> c != DOT && c != DOTDOT)
  }

  /** The first `depth` chunks joined by '/'. */
  function Directory(chunks: seq<Bytes>, depth: nat): Path {
    Join(chunks[..Min(depth, |chunks|)], SLASH)
  }

  /** The chunks after the first `depth`, run together. */
  function Filename(chunks: seq<Bytes>, depth: nat): Bytes {
    Join(chunks[Min(depth, |chunks|)..], [])
  }

  function SplitIdIntoDirectoryAndFilename(id: Bytes, depth: nat, width: nat): Outcome<Split>
    requires width > 0
  {
    var chunks := Chunks(id, width);
    if !AllUtf8(chunks) then Aborted
    else Returned(Split(Directory(chunks, depth), Filename(chunks, depth)))
  }

  /** The split the blob store uses: chunks of two bytes, the configured depth. */
  function BlobSplit(cfg: Config, id: Bytes): Outcome<Split> {
    SplitIdIntoDirectoryAndFilename(id, cfg.storageDirectoryDepth, DIRECTORY_NAME_LENGTH)
  }

  /** `storage_location/directory/filename`. */
  function BlobPath(cfg: Config, s: Split): Path {
    cfg.storageLocation + SLASH + s.directory + SLASH + s.filename
  }

  datatype StoreStep = StoreStep(files: map<Path, Bytes>, result: Outcome<IoResult<()>>)

  /** What `store_slice` does to the files and what it returns. */
  function StoreSliceOn(files: map<Path, Bytes>, faults: Faults, cfg: Config, id: Bytes, body: Bytes): StoreStep {
    match BlobSplit(cfg, id)
    case Aborted => StoreStep(files, Aborted)
    case Returned(s) =>
      var fullDirectory := cfg.storageLocation + SLASH + s.directory;
      match CreateDirAllOn(faults, fullDirectory)
      case Err(e) => StoreStep(files, Returned(Err(e)))
      case Ok(_) =>
        var w := WriteOn(files, faults, fullDirectory + SLASH + s.filename, body);
        StoreStep(w.files, Returned(w.result))
  }

  /** What `read_slice` returns. */
  function ReadSliceOn(files: map<Path, Bytes>, cfg: Config, id: Bytes): (r: Outcome<IoResult<Bytes>>)
    ensures r.Returned? <==> BlobSplit(cfg, id).Returned?
    ensures r.Returned? && r.value.Ok? ==> r.value.value in files.Values
  {
    match BlobSplit(cfg, id)
    case Aborted => Aborted
    case Returned(s) => Returned(ReadOn(files, cfg.storageLocation + SLASH + s.directory + SLASH + s.filename))
  }

  method StoreSlice(fs: FileSystem, cfg: Config, id: Bytes, body: Bytes) returns (r: Outcome<IoResult<()>>)
    modifies fs
    ensures StoreStep(fs.files, r) == StoreSliceOn(old(fs.files), fs.faults, cfg, id, body)
  {
    var split := BlobSplit(cfg, id);
    if split.Aborted? {
      return Aborted;
    }
    var s := split.value;
    var fullDirectory := cfg.storageLocation + SLASH + s.directory;
    var created := fs.CreateDirAll(fullDirectory);
    if created.Err? {
      return Returned(Err(created.error));
    }
    var fullPath := fullDirectory + SLASH + s.filename;
    var written := fs.Write(fullPath, body);
    r := Returned(written);
  }

  function ReadSlice(fs: FileSystem, cfg: Config, id: Bytes): (r: Outcome<IoResult<Bytes>>)
    reads fs
    ensures r.Returned? <==> BlobSplit(cfg, id).Returned?
    ensures r.Returned? && r.value.Ok? ==> r.value.value in fs.files.Values
  {
    ReadSliceOn(fs.files, cfg, id)
  }

  // ---------------------------------------------------------------------
  // The split
  // ---------------------------------------------------------------------

  /** The example of the doc comment: ("1234567890", depth 3) is ("12/34/56", "7890"). */
  lemma SplitExample()
    ensures SplitIdIntoDirectoryAndFilename(Ascii("1234567890"), 3, 2)
            == Returned(Split(Ascii("12/34/56"), Ascii("7890")))
  {
    var id := Ascii("1234567890");
    var cs := [Ascii("12"), Ascii("34"), Ascii("56"), Ascii("78"), Ascii("90")];
    ExampleChunks();
    AsciiIdNeverPanics(id, 3, 2);
    assert cs[..3] == [Ascii("12"), Ascii("34"), Ascii("56")];
    assert cs[3..] == [Ascii("78"), Ascii("90")];
    ExampleDirectory();
    ExampleFilename();
  }

  lemma ExampleDirectory()
    ensures Join([Ascii("12"), Ascii("34"), Ascii("56")], SLASH) == Ascii("12/34/56")
  {
    var a, b, c := Ascii("12"), Ascii("34"), Ascii("56");
    assert [a, b, c][1..] == [b, c] && [b, c][1..] == [c];
    assert Join([c], SLASH) == c;
    assert Join([b, c], SLASH) == b + SLASH + c;
    assert Join([a, b, c], SLASH) == a + SLASH + (b + SLASH + c);
    assert a + SLASH + (b + SLASH + c) == [49, 50, 47, 51, 52, 47, 53, 54];
  }

  lemma ExampleFilename()
    ensures Join([Ascii("78"), Ascii("90")], []) == Ascii("7890")
  {
    var a, b := Ascii("78"), Ascii("90");
    assert [a, b][1..] == [b];
    assert Join([a, b], []) == a + [] + b;
    assert a + [] + b == [55, 56, 57, 48];
  }

  lemma ExampleChunks()
    ensures Chunks(Ascii("1234567890"), 2) == [Ascii("12"), Ascii("34"), Ascii("56"), Ascii("78"), Ascii("90")]
  {
    var id := Ascii("1234567890");
    assert id[..2] == Ascii("12") && id[2..] == Ascii("34567890");
    var r := id[2..];
    assert r[..2] == Ascii("34") && r[2..] == Ascii("567890");
    r := r[2..];
    assert r[..2] == Ascii("56") && r[2..] == Ascii("7890");
    r := r[2..];
    assert r[..2] == Ascii("78") && r[2..] == Ascii("90");
  }

  /** The first k chunks run together are the first k * width bytes of the id (or all of it). */
  lemma ChunksTakeConcat(id: Bytes, width: nat, k: nat)
    requires width > 0 && k <= |Chunks(id, width)|
    ensures Concat(Chunks(id, width)[..k]) == id[..Min(k * width, |id|)]
  {
    var prefix := id[..Min(k * width, |id|)];
    calc {
      Concat(Chunks(id, width)[..k]);
    == { ChunksPrefix(id, width, k); }
      Concat(Chunks(prefix, width));
    == { ChunksConcat(prefix, width); }
      prefix;
    }
  }

  /** The chunks after the first k run together are the rest of the id. */
  lemma ChunksDropConcat(id: Bytes, width: nat, k: nat)
    requires width > 0 && k <= |Chunks(id, width)|
    ensures Concat(Chunks(id, width)[k..]) == id[Min(k * width, |id|)..]
  {
    var rest := id[Min(k * width, |id|)..];
    calc {
      Concat(Chunks(id, width)[k..]);
    == { ChunksSuffix(id, width, k); }
      Concat(Chunks(rest, width));
    == { ChunksConcat(rest, width); }
      rest;
    }
  }

  /** One chunk further into an id longer than a chunk is `width` bytes further. */
  lemma MinStep(k: nat, width: nat, n: nat)
    requires k >= 1 && n > width
    ensures width + Min((k - 1) * width, n - width) == Min(k * width, n)
  {
    assert (k - 1) * width + width == k * width;
  }

  /** The chunks after the first k are the chunks of the rest of the id. */
  lemma {:induction false} ChunksSuffix(id: Bytes, width: nat, k: nat)
    requires width > 0 && k <= |Chunks(id, width)|
    ensures Chunks(id, width)[k..] == Chunks(id[Min(k * width, |id|)..], width)
    decreases k
  {
    var cs := Chunks(id, width);
    if k == 0 {
      assert id[0..] == id;
    } else if |id| <= width {
      assert cs == [id] && k == 1;
      assert id[|id|..] == [];
    } else {
      var rest := id[width..];
      var rs := Chunks(rest, width);
      assert cs == [id[..width]] + rs;
      ChunksSuffix(rest, width, k - 1);
      var m' := Min((k - 1) * width, |rest|);
      MinStep(k, width, |id|);
      assert cs[k..] == rs[k - 1..];
      assert rest[m'..] == id[width + m'..];
    }
  }

  /** The first k chunks of an id are the chunks of its first k * width bytes. */
  lemma {:induction false} ChunksPrefix(id: Bytes, width: nat, k: nat)
    requires width > 0 && k <= |Chunks(id, width)|
    ensures Chunks(id, width)[..k] == Chunks(id[..Min(k * width, |id|)], width)
    decreases k
  {
    var cs := Chunks(id, width);
    if k == 0 {
      assert cs[..0] == [];
    } else if |id| <= width {
      assert cs == [id] && k == 1;
      assert cs[..1] == cs;
      assert id[..|id|] == id;
    } else {
      var rest := id[width..];
      var rs := Chunks(rest, width);
      assert cs == [id[..width]] + rs;
      ChunksPrefix(rest, width, k - 1);
      var m' := Min((k - 1) * width, |rest|);
      var m := width + m';
      MinStep(k, width, |id|);
      assert cs[..k] == [id[..width]] + rs[..k - 1];
      var p := id[..m];
      assert p[..width] == id[..width] && p[width..] == rest[..m'];
      if m' == 0 {
        assert k == 1;
        assert p == id[..width];
      } else {
        assert |p| > width;
        assert Chunks(p, width) == [p[..width]] + Chunks(p[width..], width);
      }
    }
  }

  /**
   * Where the split puts the bytes of an id: the directory holds the first
   * `depth` chunks (the first depth * width bytes, or the whole id), the
   * filename is the rest of the id.
   */
  lemma SplitLayout(id: Bytes, depth: nat, width: nat)
    requires width > 0
    requires SplitIdIntoDirectoryAndFilename(id, depth, width).Returned?
    ensures var s := SplitIdIntoDirectoryAndFilename(id, depth, width).value;
            var k := Min(depth, |Chunks(id, width)|);
            var m := Min(k * width, |id|);
            && s.directory == Join(Chunks(id[..m], width), SLASH)
            && s.filename == id[m..]
  {
    var s := SplitIdIntoDirectoryAndFilename(id, depth, width).value;
    var cs := Chunks(id, width);
    var k := Min(depth, |cs|);
    assert s.directory == Join(cs[..k], SLASH);
    assert s.filename == Join(cs[k..], []);
    ChunksDropConcat(id, width, k);
    ChunksPrefix(id, width, k);
    JoinEmptySeparator(cs[k..]);
  }

  /** With no more chunks than the depth, every chunk goes to the directory and the filename is empty. */
  lemma ShortIdAllInDirectory(id: Bytes, depth: nat, width: nat)
    requires width > 0 && |Chunks(id, width)| <= depth
    requires SplitIdIntoDirectoryAndFilename(id, depth, width).Returned?
    ensures var s := SplitIdIntoDirectoryAndFilename(id, depth, width).value;
            s.filename == [] && s.directory == Join(Chunks(id, width), SLASH)
  {
    var cs := Chunks(id, width);
    assert cs[..|cs|] == cs && cs[|cs|..] == [];
  }

  lemma {:induction false} AsciiChunks(id: Bytes, width: nat)
    requires width > 0 && IsAscii(id)
    ensures forall i :: 0 <= i < |Chunks(id, width)| ==> IsAscii(Chunks(id, width)[i])
    decreases |id|
  {
    if |id| > width {
      AsciiChunks(id[width..], width);
      var cs := Chunks(id, width);
      assert cs == [id[..width]] + Chunks(id[width..], width);
      forall i | 0 <= i < |cs| ensures IsAscii(cs[i]) {
        if i > 0 {
          assert cs[i] == Chunks(id[width..], width)[i - 1];
        }
      }
    }
  }

  /** An ASCII id never makes `from_utf8(..).unwrap()` panic. */
  lemma AsciiIdNeverPanics(id: Bytes, depth: nat, width: nat)
    requires width > 0 && IsAscii(id)
    ensures SplitIdIntoDirectoryAndFilename(id, depth, width).Returned?
  {
    AsciiChunks(id, width);
    var cs := Chunks(id, width);
    forall i | 0 <= i < |cs| ensures Utf8Valid(cs[i]) {
      AsciiIsUtf8(cs[i]);
    }
  }

  /**
   * The UTF-8 text "aé" (bytes 61 C3 A9) is a valid Rust string, but the
   * chunk boundary at byte 2 cuts 'é' in half, so splitting it panics.
   */
  lemma SplitCharacterPanics(depth: nat)
    ensures Utf8Valid([0x61, 0xC3, 0xA9])
    ensures SplitIdIntoDirectoryAndFilename([0x61, 0xC3, 0xA9], depth, 2) == Aborted
  {
    var id: Bytes := [0x61, 0xC3, 0xA9];
    assert id[1..] == [0xC3, 0xA9] && id[1..][2..] == [];
    assert Chunks(id, 2) == [[0x61, 0xC3], [0xA9]] by {
      assert id[..2] == [0x61, 0xC3] && id[2..] == [0xA9];
    }
    var c: Bytes := [0x61, 0xC3];
    assert c[1..] == [0xC3];
    assert !Utf8Valid(c[1..]);
  }

  // ---------------------------------------------------------------------
  // Distinct ids, distinct files
  // ---------------------------------------------------------------------

  /** The part of a blob path below the storage location: `directory/filename`. */
  function ShardedName(chunks: seq<Bytes>, depth: nat): Bytes {
    Directory(chunks, depth) + SLASH + Filename(chunks, depth)
  }

  lemma ShardedNameStep(id: Bytes, width: nat, depth: nat)
    requires width > 0 && 0 < depth < |Chunks(id, width)|
    ensures |id| > width
    ensures ShardedName(Chunks(id, width), depth)
            == id[..width] + (if depth == 1 then [] else SLASH) + ShardedName(Chunks(id[width..], width), depth - 1)
  {
    var rs := Chunks(id[width..], width);
    assert Chunks(id, width) == [id[..width]] + rs;
    ShardedNameCons(id[..width], rs, depth);
  }

  lemma ShardedNameCons(c: Bytes, rs: seq<Bytes>, depth: nat)
    requires 0 < depth <= |rs|
    ensures ShardedName([c] + rs, depth) == c + (if depth == 1 then [] else SLASH) + ShardedName(rs, depth - 1)
  {
    DirectoryCons(c, rs, depth);
    var f := Filename(rs, depth - 1);
    if depth == 1 {
      assert rs[..0] == [];
      assert ShardedName(rs, 0) == [] + SLASH + f;
      assert c + SLASH + f == c + [] + ([] + SLASH + f);
    } else {
      var d := Directory(rs, depth - 1);
      assert c + SLASH + d + SLASH + f == c + SLASH + (d + SLASH + f);
    }
  }

  /** One chunk in front: it opens the directory, and the filename is unchanged. */
  lemma DirectoryCons(c: Bytes, rs: seq<Bytes>, depth: nat)
    requires 0 < depth <= |rs|
    ensures Directory([c] + rs, depth) == if depth == 1 then c else c + SLASH + Directory(rs, depth - 1)
    ensures Filename([c] + rs, depth) == Filename(rs, depth - 1)
  {
    var cs := [c] + rs;
    assert cs[..depth] == [c] + rs[..depth - 1];
    assert cs[depth..] == rs[depth - 1..];
    if depth > 1 {
      assert cs[..depth][1..] == rs[..depth - 1];
    }
  }

  /** At depth 0 every chunk goes to the filename, and the name is '/' and the whole id. */
  lemma ShardedNameZero(id: Bytes, width: nat)
    requires width > 0
    ensures ShardedName(Chunks(id, width), 0) == SLASH + id
  {
    var cs := Chunks(id, width);
    JoinEmptySeparator(cs);
    ChunksConcat(id, width);
    assert cs[..0] == [] && cs[0..] == cs;
    assert Directory(cs, 0) == [];
    assert Filename(cs, 0) == id;
  }

  /** Two ids with more chunks than the depth that share a blob path are the same id. */
  lemma {:induction false} ShardedNameInjective(a: Bytes, b: Bytes, width: nat, depth: nat)
    requires width > 0 && depth < |Chunks(a, width)| && depth < |Chunks(b, width)|
    requires ShardedName(Chunks(a, width), depth) == ShardedName(Chunks(b, width), depth)
    ensures a == b
    decreases depth
  {
    var ca, cb := Chunks(a, width), Chunks(b, width);
    if depth == 0 {
      ShardedNameZero(a, width);
      ShardedNameZero(b, width);
      assert a == (SLASH + a)[1..];
    } else {
      ShardedNameStep(a, width, depth);
      ShardedNameStep(b, width, depth);
      var sep: Bytes := if depth == 1 then [] else SLASH;
      var ra, rb := Chunks(a[width..], width), Chunks(b[width..], width);
      assert ca == [a[..width]] + ra && cb == [b[..width]] + rb;
      assert (a[..width] + sep) + ShardedName(ra, depth - 1) == (b[..width] + sep) + ShardedName(rb, depth - 1);
      CancelPrefix(a[..width] + sep, b[..width] + sep, ShardedName(ra, depth - 1), ShardedName(rb, depth - 1));
      CancelPrefix(a[..width], b[..width], sep, sep);
      ShardedNameInjective(a[width..], b[width..], width, depth - 1);
      assert a == a[..width] + a[width..];
      assert b == b[..width] + b[width..];
    }
  }

  /** Equal concatenations with heads of the same length have equal heads and equal tails. */
  lemma CancelPrefix(p: Bytes, q: Bytes, x: Bytes, y: Bytes)
    requires p + x == q + y && |p| == |q|
    ensures p == q && x == y
  {
    assert p == (p + x)[..|p|] && q == (q + y)[..|q|];
    assert x == (p + x)[|p|..] && y == (q + y)[|q|..];
  }

  /** With no more chunks than the depth the path ends in '/', and such a file is never written. */
  lemma ShortIdPathIsDirectory(cfg: Config, id: Bytes)
    requires |Chunks(id, DIRECTORY_NAME_LENGTH)| <= cfg.storageDirectoryDepth
    requires BlobSplit(cfg, id).Returned?
    ensures EndsWithSlash(BlobPath(cfg, BlobSplit(cfg, id).value))
  {
    ShortIdAllInDirectory(id, cfg.storageDirectoryDepth, DIRECTORY_NAME_LENGTH);
  }

  /** Blob paths of two distinct ids differ unless the path names a directory. */
  lemma BlobPathsDistinct(cfg: Config, a: Bytes, b: Bytes)
    requires a != b && BlobSplit(cfg, a).Returned? && BlobSplit(cfg, b).Returned?
    requires !EndsWithSlash(BlobPath(cfg, BlobSplit(cfg, a).value))
    ensures BlobPath(cfg, BlobSplit(cfg, a).value) != BlobPath(cfg, BlobSplit(cfg, b).value)
  {
    var d := cfg.storageDirectoryDepth;
    var pa, pb := BlobPath(cfg, BlobSplit(cfg, a).value), BlobPath(cfg, BlobSplit(cfg, b).value);
    if pa == pb {
      if |Chunks(a, 2)| <= d {
        ShortIdPathIsDirectory(cfg, a);
      }
      if |Chunks(b, 2)| <= d {
        ShortIdPathIsDirectory(cfg, b);
      }
      var prefix := cfg.storageLocation + SLASH;
      BlobPathIsShardedName(cfg, a);
      BlobPathIsShardedName(cfg, b);
      CancelPrefix(prefix, prefix, ShardedName(Chunks(a, 2), d), ShardedName(Chunks(b, 2), d));
      ShardedNameInjective(a, b, 2, d);
    }
  }

  /** A blob path is the storage location, '/', and the sharded name of the id. */
  lemma BlobPathIsShardedName(cfg: Config, id: Bytes)
    requires BlobSplit(cfg, id).Returned?
    ensures BlobPath(cfg, BlobSplit(cfg, id).value)
            == (cfg.storageLocation + SLASH) + ShardedName(Chunks(id, 2), cfg.storageDirectoryDepth)
  {
    var s := BlobSplit(cfg, id).value;
    assert cfg.storageLocation + SLASH + s.directory + SLASH + s.filename
           == (cfg.storageLocation + SLASH) + (s.directory + SLASH + s.filename);
  }

  /**
   * The ids "ab..é" and "cd..é" at depth 2 under "/d": both split, and
   * their paths "/d/ab/../é" and "/d/cd/../é" differ only in the directory
   * that ".." leaves again, so on Linux they name the same file /d/é. Such
   * ids are not plain.
   */
  lemma DotDotChunkPaths()
    ensures var cfg := Config(Ascii("/d"), 2);
            var e: Bytes := [0xC3, 0xA9];
            var a := Ascii("ab") + DOTDOT + e;
            var b := Ascii("cd") + DOTDOT + e;
            && a != b
            && BlobSplit(cfg, a).Returned? && BlobSplit(cfg, b).Returned?
            && BlobPath(cfg, BlobSplit(cfg, a).value) == Ascii("/d") + SLASH + Ascii("ab") + SLASH + DOTDOT + SLASH + e
            && BlobPath(cfg, BlobSplit(cfg, b).value) == Ascii("/d") + SLASH + Ascii("cd") + SLASH + DOTDOT + SLASH + e
            && !PlainId(a) && !PlainId(b)
  {
    var e: Bytes := [0xC3, 0xA9];
    DotDotChunkPath(Ascii("ab"), e);
    DotDotChunkPath(Ascii("cd"), e);
    assert (Ascii("ab") + DOTDOT + e)[0] != (Ascii("cd") + DOTDOT + e)[0];
  }

  /** An ASCII chunk, "..", then a two-byte character: ".." is a directory level of its own. */
  lemma DotDotChunkPath(c: Bytes, e: Bytes)
    requires |c| == 2 && c[0] < 0x80 && c[1] < 0x80
    requires e == [0xC3, 0xA9]
    ensures var cfg := Config(Ascii("/d"), 2);
            var id := c + DOTDOT + e;
            && BlobSplit(cfg, id).Returned?
            && BlobPath(cfg, BlobSplit(cfg, id).value) == Ascii("/d") + SLASH + c + SLASH + DOTDOT + SLASH + e
            && !PlainId(id)
  {
    var id := c + DOTDOT + e;
    var cs := [c, DOTDOT, e];
    var rest := DOTDOT + e;
    assert id[..2] == c && id[2..] == rest;
    assert rest[..2] == DOTDOT && rest[2..] == e;
    assert Chunks(e, 2) == [e];
    assert Chunks(rest, 2) == [DOTDOT] + Chunks(e, 2);
    assert Chunks(id, 2) == [c] + Chunks(rest, 2) == cs;
    assert Utf8Valid(c) by {
      assert c[1..][1..] == [];
    }
    assert Utf8Valid(DOTDOT) by {
      assert DOTDOT[1..] == DOT && DOT[1..] == [];
    }
    assert Utf8Valid(e) by {
      assert e[2..] == [];
    }
    assert cs[..Min(2, |cs|)] == [c, DOTDOT] && [c, DOTDOT][1..] == [DOTDOT];
    assert Join([DOTDOT], SLASH) == DOTDOT;
    assert Directory(cs, 2) == c + SLASH + DOTDOT;
    assert cs[Min(2, |cs|)..] == [e];
    assert Filename(cs, 2) == e;
    assert AllUtf8(cs);
    var cfg := Config(Ascii("/d"), 2);
    assert SplitIdIntoDirectoryAndFilename(id, 2, 2) == Returned(Split(Directory(cs, 2), Filename(cs, 2)));
    assert BlobSplit(cfg, id) == Returned(Split(c + SLASH + DOTDOT, e));
    assert Ascii("/d") + SLASH + (c + SLASH + DOTDOT) + SLASH + e == Ascii("/d") + SLASH + c + SLASH + DOTDOT + SLASH + e;
    assert cs[1] == DOTDOT && DOTDOT in Chunks(id, DIRECTORY_NAME_LENGTH);
  }

  /**
   * The id "é." at depth 1 has "." as its filename: the write names the
   * directory just created and fails, and no file changes.
   */
  lemma DotFilenameIsADirectory(files: map<Path, Bytes>, faults: Faults, location: Path, body: Bytes)
    ensures var st := StoreSliceOn(files, faults, Config(location, 1), [0xC3, 0xA9, 0x2E], body);
            && st.files == files
            && st.result == Returned(Err(if location + SLASH + [0xC3, 0xA9] in faults.badDirs then PermissionDenied else IsADirectory))
  {
    var id: Bytes := [0xC3, 0xA9, 0x2E];
    var e: Bytes := [0xC3, 0xA9];
    assert id[..2] == e && id[2..] == DOT;
    assert Chunks(id, 2) == [e, DOT];
    assert Utf8Valid(e) by {
      assert e[2..] == [];
    }
    assert Utf8Valid(DOT) by {
      assert DOT[1..] == [];
    }
    assert [e, DOT][..1] == [e] && [e, DOT][1..] == [DOT];
    var path := location + SLASH + e + SLASH + DOT;
    assert path[|path| - 2..] == SLASH + DOT;
  }

  // ---------------------------------------------------------------------
  // Store and read
  // ---------------------------------------------------------------------

  /**
   * `store_slice` succeeds exactly when the split does not panic, the
   * directory can be created, and the file can be written; on any failure no
   * file changes, so a failed `create_dir_all` means no write.
   */
  lemma StoreOutcome(files: map<Path, Bytes>, faults: Faults, cfg: Config, id: Bytes, body: Bytes)
    ensures var st := StoreSliceOn(files, faults, cfg, id, body);
            && (st.result == Returned(Ok(())) <==>
                  && BlobSplit(cfg, id).Returned?
                  && cfg.storageLocation + SLASH + BlobSplit(cfg, id).value.directory !in faults.badDirs
                  && !NamesDirectory(BlobPath(cfg, BlobSplit(cfg, id).value))
                  && BlobPath(cfg, BlobSplit(cfg, id).value) !in faults.badFiles)
            && (st.result != Returned(Ok(())) ==> st.files == files)
            && (st.result == Returned(Ok(())) ==> st.files == files[BlobPath(cfg, BlobSplit(cfg, id).value) := body])
  {
    if BlobSplit(cfg, id).Returned? {
      var s := BlobSplit(cfg, id).value;
      var dir := cfg.storageLocation + SLASH + s.directory;
      var path := BlobPath(cfg, s);
      assert dir + SLASH + s.filename == path;
      var w := WriteOn(files, faults, path, body);
      assert StoreSliceOn(files, faults, cfg, id, body)
          == if dir in faults.badDirs then StoreStep(files, Returned(Err(PermissionDenied)))
             else StoreStep(w.files, Returned(w.result));
    }
  }

  /** Store then read: the same id reads back exactly the stored bytes. */
  lemma StoreThenRead(files: map<Path, Bytes>, faults: Faults, cfg: Config, id: Bytes, body: Bytes)
    requires StoreSliceOn(files, faults, cfg, id, body).result == Returned(Ok(()))
    ensures ReadSliceOn(StoreSliceOn(files, faults, cfg, id, body).files, cfg, id) == Returned(Ok(body))
  {
    StoreOutcome(files, faults, cfg, id, body);
    var s := BlobSplit(cfg, id).value;
    assert cfg.storageLocation + SLASH + s.directory + SLASH + s.filename == BlobPath(cfg, s);
  }

  /** Storing one plain id never changes what another plain id reads. */
  lemma StoreLeavesOtherIds(files: map<Path, Bytes>, faults: Faults, cfg: Config, id: Bytes, body: Bytes, other: Bytes)
    requires other != id && PlainId(id) && PlainId(other)
    ensures ReadSliceOn(StoreSliceOn(files, faults, cfg, id, body).files, cfg, other) == ReadSliceOn(files, cfg, other)
  {
    StoreOutcome(files, faults, cfg, id, body);
    if StoreSliceOn(files, faults, cfg, id, body).result == Returned(Ok(())) && BlobSplit(cfg, other).Returned? {
      BlobPathsDistinct(cfg, id, other);
      var s := BlobSplit(cfg, other).value;
      assert cfg.storageLocation + SLASH + s.directory + SLASH + s.filename == BlobPath(cfg, s);
    }
  }

  /** A sequence of `store_slice` calls, each (id, body). */
  function StoreEach(files: map<Path, Bytes>, faults: Faults, cfg: Config, writes: seq<(Bytes, Bytes)>): map<Path, Bytes>
    decreases |writes|
  {
    if writes == [] then files
    else StoreEach(StoreSliceOn(files, faults, cfg, writes[0].0, writes[0].1).files, faults, cfg, writes[1..])
  }

  /** Storing one more blob after a sequence of stores. */
  lemma {:induction false} StoreEachSnoc(files: map<Path, Bytes>, faults: Faults, cfg: Config, writes: seq<(Bytes, Bytes)>, w: (Bytes, Bytes))
    ensures StoreEach(files, faults, cfg, writes + [w])
            == StoreSliceOn(StoreEach(files, faults, cfg, writes), faults, cfg, w.0, w.1).files
    decreases |writes|
  {
    if writes == [] {
      assert [] + [w] == [w] && [w][1..] == [];
    } else {
      assert (writes + [w])[0] == writes[0] && (writes + [w])[1..] == writes[1..] + [w];
      StoreEachSnoc(StoreSliceOn(files, faults, cfg, writes[0].0, writes[0].1).files, faults, cfg, writes[1..], w);
    }
  }

  /**
   * Reading a plain id that no store of plain ids in a sequence wrote reads
   * what an empty store gives: NotFound, or a panic in the split.
   */
  lemma {:induction false} NeverStoredNotFound(files: map<Path, Bytes>, faults: Faults, cfg: Config, writes: seq<(Bytes, Bytes)>, id: Bytes)
    requires forall i :: 0 <= i < |writes| ==> writes[i].0 != id && PlainId(writes[i].0)
    requires PlainId(id)
    requires ReadSliceOn(files, cfg, id) == ReadSliceOn(map[], cfg, id)
    ensures ReadSliceOn(StoreEach(files, faults, cfg, writes), cfg, id) == ReadSliceOn(map[], cfg, id)
    ensures ReadSliceOn(map[], cfg, id) == Aborted || ReadSliceOn(map[], cfg, id) == Returned(Err(NotFound))
    decreases |writes|
  {
    if writes != [] {
      StoreLeavesOtherIds(files, faults, cfg, writes[0].0, writes[0].1, id);
      NeverStoredNotFound(StoreSliceOn(files, faults, cfg, writes[0].0, writes[0].1).files, faults, cfg, writes[1..], id);
    }
  }
}
