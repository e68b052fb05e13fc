/**
 * The multer uploaders of config/upload.js (cover and gallery) and
 * config/uploadPhotography.js, and what multer does with their settings
 * before a handler runs: each file part is checked against the field name
 * and count, the `fileFilter` callback and the size limit, and accepted
 * files are written under a name from the `filename` callback.
 */
module Upload {
  import opened Optional
  import opened Text
  import opened Paths
  import opened Store

  /** The MIME types `fileFilter` lets through. */
  const ALLOWED_TYPES: seq<string> := ["image/jpeg", "image/png", "image/webp", "image/jpg"]

  /** `limits.fileSize` of all three uploaders: 15 MiB. */
  const MAX_FILE_SIZE: nat := 15 * 1024 * 1024

  /** The `fileFilter` callback: `cb(null, ok.includes(file.mimetype))`. */
  function FileFilter(mimetype: string): (ok: bool)
    ensures ok <==> mimetype == "image/jpeg" || mimetype == "image/png" || mimetype == "image/webp" || mimetype == "image/jpg"
  {
    mimetype in ALLOWED_TYPES
  }

  datatype Storage = DiskStorage(destination: Path) | MemoryStorage

  /**
   * A multer middleware: its storage, the one file field it takes and how
   * many files of it, the per-file byte limit (`None`: no limit) and whether
   * the MIME whitelist is applied.
   */
  datatype Uploader = Uploader(storage: Storage, field: string, maxCount: nat, fileSize: Option<nat>, filtered: bool)

  /** `uploadCover`: `.single('cover')`. */
  const COVER := Uploader(DiskStorage(RESTAURANT_DIR), "cover", 1, Some(MAX_FILE_SIZE), true)
  /** `uploadGallery`: `.array('photos', 10)`. */
  const GALLERY := Uploader(DiskStorage(RESTAURANT_DIR), "photos", 10, Some(MAX_FILE_SIZE), true)
  /** `uploadPhotography`: `.single('photo')`. */
  const PHOTOGRAPHY := Uploader(DiskStorage(PHOTOGRAPHY_DIR), "photo", 1, Some(MAX_FILE_SIZE), true)
  /**
   * The single-photo uploader of the gallery replace route: its storage,
   * limits and filter are read from properties the gallery middleware does
   * not have, so multer falls back to memory storage, no limit and no filter.
   */
  const SINGLE_PHOTO := Uploader(MemoryStorage, "photo", 1, None, false)

  /**
   * A file part of a multipart request, with the clock reading and the random
   * number the `filename` callback would draw for it.
   */
  datatype Part = Part(field: string, originalName: string, mimetype: string, size: nat, millis: nat, random: nat)

  /** What a handler sees as `req.file`, or as an element of `req.files`. */
  datatype ReqFile = DiskFile(destination: Path, filename: string, size: nat) | MemoryFile(size: nat)

  /** `req.file.path`: undefined for a file kept in memory. */
  function UploadPath(f: ReqFile): Option<Path> {
    if f.DiskFile? then Some(Join(f.destination, f.filename)) else None
  }

  /** `req.file.filename` as a template literal renders it. */
  function FilenameText(f: ReqFile): string {
    if f.DiskFile? then f.filename else "undefined"
  }

  datatype MulterError = LimitUnexpectedFile | LimitFileSize

  /** The parts multer accepted, and the error that stopped it, if one did. */
  datatype Intake = Intake(accepted: seq<Part>, error: Option<MulterError>)

  /** A part the uploader takes without error: the right field and, unless filtered out, within the limit. */
  predicate Admissible(u: Uploader, p: Part) {
    p.field == u.field && ((u.filtered && !FileFilter(p.mimetype)) || u.fileSize.None? || p.size <= u.fileSize.value)
  }

  /** A part the handler receives. */
  predicate Kept(u: Uploader, p: Part) {
    !u.filtered || FileFilter(p.mimetype)
  }

  /** The parts `Kept` by the uploader, in order. */
  function KeptParts(u: Uploader, parts: seq<Part>): (r: seq<Part>)
    ensures |r| <= |parts|
    ensures forall p :: p in r ==> p in parts && Kept(u, p)
    ensures forall p :: p in parts && Kept(u, p) ==> p in r
  {
    if parts == [] then []
    else if Kept(u, parts[0]) then [parts[0]] + KeptParts(u, parts[1..])
    else KeptParts(u, parts[1..])
  }

  /** Filtering works part by part, keeping the request's order. */
  lemma {:induction false} KeptPartsConcat(u: Uploader, a: seq<Part>, b: seq<Part>)
    ensures KeptParts(u, a + b) == KeptParts(u, a) + KeptParts(u, b)
    decreases |a|
  {
    if a != [] {
      assert (a + b)[1..] == a[1..] + b;
      KeptPartsConcat(u, a[1..], b);
    } else {
      assert a + b == b;
    }
  }

  /**
   * The parts are handed on as they arrive: after one more part, the kept
   * parts are those before it, followed by the new part exactly when it is kept.
   */
  lemma KeptPartsInOrder(u: Uploader, parts: seq<Part>, i: int)
    requires 0 <= i < |parts|
    ensures KeptParts(u, parts[..i + 1]) == KeptParts(u, parts[..i]) + (if Kept(u, parts[i]) then [parts[i]] else [])
  {
    assert parts[..i + 1] == parts[..i] + [parts[i]];
    KeptPartsConcat(u, parts[..i], [parts[i]]);
    assert [parts[i]][1..] == [];
  }

  /**
   * multer's handling of the parts with `left` files still allowed: another
   * field, or one file too many, is LIMIT_UNEXPECTED_FILE (the count is taken
   * before `fileFilter` runs); a filtered-out file is skipped; an accepted
   * file over the limit is LIMIT_FILE_SIZE.
   */
  function Take(u: Uploader, parts: seq<Part>, left: nat): (r: Intake)
    ensures r.error.None? <==> |parts| <= left && forall p :: p in parts ==> Admissible(u, p)
    ensures r.error.None? ==> r.accepted == KeptParts(u, parts)
    ensures |r.accepted| <= left
    ensures forall p :: p in r.accepted ==> p.field == u.field && Kept(u, p)
    ensures forall p :: p in r.accepted && u.fileSize.Some? ==> p.size <= u.fileSize.value
    decreases |parts|
  {
    if parts == [] then Intake([], None)
    else
      var p := parts[0];
      assert parts == [p] + parts[1..] && p in parts;
      if p.field != u.field || left == 0 then Intake([], Some(LimitUnexpectedFile))
      else if u.filtered && !FileFilter(p.mimetype) then Take(u, parts[1..], left - 1)
      else if u.fileSize.Some? && p.size > u.fileSize.value then Intake([], Some(LimitFileSize))
      else
        var rest := Take(u, parts[1..], left - 1);
        Intake([p] + rest.accepted, rest.error)
  }

  /** Where the storage puts an accepted part (`destination` + `filename` callbacks). */
  function Stored(u: Uploader, p: Part): ReqFile {
    match u.storage
    case DiskStorage(dir) => DiskFile(dir, StoredName(p.millis, p.random, p.originalName), p.size)
    case MemoryStorage => MemoryFile(p.size)
  }

  /** The files the storage writes for the accepted parts, in order. */
  function Write(files: map<Path, Blob>, u: Uploader, ps: seq<Part>): (r: map<Path, Blob>)
    ensures forall p :: p in ps && u.storage.DiskStorage? ==> UploadPath(Stored(u, p)).value in r
    ensures forall q :: q in files ==> q in r
    ensures forall q :: q in r && q !in files ==> exists p :: p in ps && UploadPath(Stored(u, p)) == Some(q)
    decreases |ps|
  {
    if ps == [] then files
    else
      var f := Stored(u, ps[0]);
      var files1 := if f.DiskFile? then files[UploadPath(f).value := Original(f.size)] else files;
      assert ps == [ps[0]] + ps[1..];
      Write(files1, u, ps[1..])
  }

  /** The parts written after the first are among those written. */
  lemma WrittenPathsTail(u: Uploader, ps: seq<Part>)
    requires ps != []
    ensures WrittenPaths(u, ps[1..]) <= WrittenPaths(u, ps)
  {
    forall q | q in WrittenPaths(u, ps[1..]) ensures q in WrittenPaths(u, ps) {
      var p :| p in ps[1..] && u.storage.DiskStorage? && q == UploadPath(Stored(u, p)).value;
      assert p in ps;
    }
  }

  /** A file no part is stored at keeps its content. */
  lemma {:induction false} WriteKeepsOthers(files: map<Path, Blob>, u: Uploader, ps: seq<Part>)
    ensures forall q :: q in files && q !in WrittenPaths(u, ps) ==> Write(files, u, ps)[q] == files[q]
    decreases |ps|
  {
    if ps != [] {
      var f := Stored(u, ps[0]);
      var files1 := if f.DiskFile? then files[UploadPath(f).value := Original(f.size)] else files;
      WriteKeepsOthers(files1, u, ps[1..]);
      WrittenPathsTail(u, ps);
      assert Write(files, u, ps) == Write(files1, u, ps[1..]);
    }
  }

  /** No later part stored at the first part's path: the first part's upload stays there. */
  lemma FirstWriterStays(files: map<Path, Blob>, u: Uploader, ps: seq<Part>)
    requires ps != [] && u.storage.DiskStorage? && LastWriter(u, ps, 0)
    ensures Write(files, u, ps)[UploadPath(Stored(u, ps[0])).value] == Original(ps[0].size)
  {
    var f := Stored(u, ps[0]);
    var files1 := files[UploadPath(f).value := Original(f.size)];
    var tail := ps[1..];
    assert Write(files, u, ps) == Write(files1, u, tail);
    WriteKeepsOthers(files1, u, tail);
    assert UploadPath(f).value !in WrittenPaths(u, tail);
  }

  /** Being the last writer of a path does not depend on the parts before. */
  lemma LastWriterTail(u: Uploader, ps: seq<Part>, i: int)
    requires 0 < i < |ps| && LastWriter(u, ps, i)
    ensures LastWriter(u, ps[1..], i - 1)
  {
    var tail := ps[1..];
    forall j | i - 1 < j < |tail| ensures UploadPath(Stored(u, tail[j])) != UploadPath(Stored(u, tail[i - 1])) {
      assert tail[j] == ps[j + 1] && tail[i - 1] == ps[i];
    }
  }

  /** Each stored path holds an upload of the size of the last part stored there. */
  lemma {:induction false} WriteLastWins(files: map<Path, Blob>, u: Uploader, ps: seq<Part>)
    ensures forall i :: 0 <= i < |ps| && u.storage.DiskStorage? && LastWriter(u, ps, i) ==>
              Write(files, u, ps)[UploadPath(Stored(u, ps[i])).value] == Original(ps[i].size)
    decreases |ps|
  {
    if ps != [] {
      var f := Stored(u, ps[0]);
      var files1 := if f.DiskFile? then files[UploadPath(f).value := Original(f.size)] else files;
      var tail := ps[1..];
      assert Write(files, u, ps) == Write(files1, u, tail);
      WriteLastWins(files1, u, tail);
      forall i | 0 <= i < |ps| && u.storage.DiskStorage? && LastWriter(u, ps, i)
        ensures Write(files, u, ps)[UploadPath(Stored(u, ps[i])).value] == Original(ps[i].size)
      {
        if i == 0 {
          FirstWriterStays(files, u, ps);
        } else {
          LastWriterTail(u, ps, i);
          assert tail[i - 1] == ps[i];
        }
      }
    }
  }

  /** No later part of `ps` is stored at the path of part `i`: its file is the one left on disk. */
  predicate LastWriter(u: Uploader, ps: seq<Part>, i: int)
    requires 0 <= i < |ps|
  {
    forall j :: i < j < |ps| ==> UploadPath(Stored(u, ps[j])) != UploadPath(Stored(u, ps[i]))
  }

  /** The paths the storage writes for `ps`. */
  function WrittenPaths(u: Uploader, ps: seq<Part>): set<Path> {
    set p | p in ps && u.storage.DiskStorage? :: UploadPath(Stored(u, p)).value
  }

  /**
   * The upload middleware on a request: on success the stored files (what the
   * handler gets as `req.files`, or the first as `req.file`), written to disk
   * for disk storage; on an error, multer removes what it wrote and the error
   * goes to the error handler (`None`). The tables are never touched.
   */
  function Receive(s: State, u: Uploader, parts: seq<Part>): (r: (State, Option<seq<ReqFile>>))
    ensures r.1.Some? <==> |parts| <= u.maxCount && forall p :: p in parts ==> Admissible(u, p)
    ensures r.1.Some? ==> r.1.value == seq(|KeptParts(u, parts)|, i requires 0 <= i < |KeptParts(u, parts)| => Stored(u, KeptParts(u, parts)[i]))
    ensures r.1.Some? ==> forall f :: f in r.1.value && f.DiskFile? ==> UploadPath(f).value in r.0.files
    ensures r.1.Some? ==> forall q :: q in s.files ==> q in r.0.files
    ensures r.1.Some? ==> r.0.files == Write(s.files, u, KeptParts(u, parts))
    ensures r.1.None? ==> r.0.files == s.files - WrittenPaths(u, Take(u, parts, u.maxCount).accepted)
    ensures r.0 == s.(files := r.0.files)
  {
    var intake := Take(u, parts, u.maxCount);
    if intake.error.Some? then
      (s.(files := s.files - WrittenPaths(u, intake.accepted)), None)
    else
      var kept := intake.accepted;
      var stored := seq(|kept|, i requires 0 <= i < |kept| => Stored(u, kept[i]));
      assert forall f :: f in stored ==> exists p :: p in kept && f == Stored(u, p) by {
        forall f | f in stored ensures exists p :: p in kept && f == Stored(u, p) {
          var i :| 0 <= i < |stored| && stored[i] == f;
          assert kept[i] in kept;
        }
      }
      (s.(files := Write(s.files, u, kept)), Some(stored))
  }

  /** No later file of `fs` is stored at the path of file `i`. */
  predicate LastAtItsPath(fs: seq<ReqFile>, i: int)
    requires 0 <= i < |fs|
  {
    forall j :: i < j < |fs| ==> UploadPath(fs[j]) != UploadPath(fs[i])
  }

  /** `Write` in terms of the stored files it reports. */
  lemma StoredFilesHoldUploads(files: map<Path, Blob>, u: Uploader, kept: seq<Part>, stored: seq<ReqFile>)
    requires |stored| == |kept| && forall i :: 0 <= i < |kept| ==> stored[i] == Stored(u, kept[i])
    ensures var r := Write(files, u, kept);
      && (forall i :: 0 <= i < |stored| && stored[i].DiskFile? && LastAtItsPath(stored, i) ==>
            UploadPath(stored[i]).value in r && r[UploadPath(stored[i]).value] == Original(stored[i].size))
      && (forall q :: q in r && q !in files ==> exists f :: f in stored && UploadPath(f) == Some(q))
      && (forall q :: q in files && (forall f :: f in stored ==> UploadPath(f) != Some(q)) ==> r[q] == files[q])
  {
    var r := Write(files, u, kept);
    WriteLastWins(files, u, kept);
    WriteKeepsOthers(files, u, kept);
    forall i | 0 <= i < |stored| && stored[i].DiskFile? && LastAtItsPath(stored, i)
      ensures UploadPath(stored[i]).value in r && r[UploadPath(stored[i]).value] == Original(stored[i].size)
    {
      assert kept[i] in kept && LastWriter(u, kept, i);
    }
    forall q | q in r && q !in files ensures exists f :: f in stored && UploadPath(f) == Some(q) {
      var p :| p in kept && UploadPath(Stored(u, p)) == Some(q);
      var i :| 0 <= i < |kept| && kept[i] == p;
      assert stored[i] in stored;
    }
    forall q | q in files && (forall f :: f in stored ==> UploadPath(f) != Some(q))
      ensures r[q] == files[q]
    {
    }
  }

  /**
   * On success, each file the handler receives holds an upload of its size
   * (unless a later file of the request was stored at the same path), no
   * file appears other than those, and every other file is as it was.
   */
  lemma ReceivedFilesHoldUploads(s: State, u: Uploader, parts: seq<Part>)
    ensures var (s1, stored) := Receive(s, u, parts);
      stored.Some? ==>
        && (forall i :: 0 <= i < |stored.value| && stored.value[i].DiskFile? && LastAtItsPath(stored.value, i) ==>
              UploadPath(stored.value[i]).value in s1.files && s1.files[UploadPath(stored.value[i]).value] == Original(stored.value[i].size))
        && (forall q :: q in s1.files && q !in s.files ==> exists f :: f in stored.value && UploadPath(f) == Some(q))
        && (forall q :: q in s.files && (forall f :: f in stored.value ==> UploadPath(f) != Some(q)) ==> s1.files[q] == s.files[q])
  {
    var (s1, stored) := Receive(s, u, parts);
    if stored.Some? {
      StoredFilesHoldUploads(s.files, u, KeptParts(u, parts), stored.value);
    }
  }

  /** `.single(field)`: `req.file` is the stored file, if there is one. */
  function SingleFile(files: seq<ReqFile>): Option<ReqFile> {
    if files == [] then None else Some(files[0])
  }
}
